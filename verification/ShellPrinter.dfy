/** Printing cloud-init entries as shell text (script.go). */
module ShellPrinter {
  import opened Wrappers
  import opened Text
  import opened ShellReader

  // ---- Quoting of arguments ----

  predicate IsPlain(c: char) {
    'a' <= c <= 'z' || 'A' <= c <= 'Z' || '0' <= c <= '9' || c in "-_/.,+:="
  }

  predicate NeedsQuoting(s: string) {
    exists i :: 0 <= i < |s| && !IsPlain(s[i])
  }

  /** strings.ReplaceAll(a, "'", `'\''`). */
  function Escape(a: string): string {
    if a == "" then ""
    else if a[0] == '\'' then "'\\''" + Escape(a[1..])
    else [a[0]] + Escape(a[1..])
  }

  function Quote(a: string): string {
    if NeedsQuoting(a) then "'" + Escape(a) + "'" else a
  }

  function JoinWords(words: seq<string>): string {
    if words == [] then ""
    else if |words| == 1 then words[0]
    else words[0] + " " + JoinWords(words[1..])
  }

  function QuoteAll(args: seq<string>): (words: seq<string>)
    ensures |words| == |args|
  {
    if args == [] then [] else [Quote(args[0])] + QuoteAll(args[1..])
  }

  lemma EscapeGrows(a: string)
    ensures |Escape(a)| >= |a|
  {
    if a != "" { EscapeGrows(a[1..]); }
  }

  /** An argument is printed as it is exactly if it has letters, digits and these marks only. */
  lemma PrintedAsIsIff(a: string)
    ensures Quote(a) == a <==>
            forall c :: c in a ==> 'a' <= c <= 'z' || 'A' <= c <= 'Z' || '0' <= c <= '9'
                                   || c == '-' || c == '_' || c == '/' || c == '.' || c == ',' || c == '+' || c == ':' || c == '='
  {
    EscapeGrows(a);
    if NeedsQuoting(a) {
      var i :| 0 <= i < |a| && !IsPlain(a[i]);
      assert a[i] in a;
    }
    forall c | c in a && !NeedsQuoting(a) ensures IsPlain(c) {
      var i :| 0 <= i < |a| && a[i] == c;
    }
  }

  lemma {:induction false} QuoteAllSnoc(args: seq<string>, a: string)
    ensures QuoteAll(args + [a]) == QuoteAll(args) + [Quote(a)]
  {
    if args == [] {
      assert [a][1..] == [] && args + [a] == [a];
      assert QuoteAll([a]) == [Quote(a)] + QuoteAll([]);
    } else {
      assert (args + [a])[1..] == args[1..] + [a];
      QuoteAllSnoc(args[1..], a);
    }
  }

  function ShellText(args: seq<string>): string {
    JoinWords(QuoteAll(args))
  }

  method ShellJoin(args: seq<string>) returns (text: string)
    ensures text == ShellText(args)
  {
    var quoted: seq<string> := [];
    for i := 0 to |args|
      invariant quoted == QuoteAll(args[..i])
    {
      assert args[..i + 1] == args[..i] + [args[i]];
      QuoteAllSnoc(args[..i], args[i]);
      if NeedsQuoting(args[i]) {
        quoted := quoted + ["'" + Escape(args[i]) + "'"];
      } else {
        quoted := quoted + [args[i]];
      }
    }
    assert args[..|args|] == args;
    text := JoinWords(quoted);
  }

  lemma EscapeSplit(first: string, rest: string)
    requires '\'' !in first
    ensures Escape(first) == first
    ensures Escape(first + "'" + rest) == first + "'\\''" + Escape(rest)
  {
    if first == "" {
      assert (first + "'" + rest)[1..] == rest;
    } else {
      assert (first + "'" + rest)[1..] == first[1..] + "'" + rest;
      EscapeSplit(first[1..], rest);
    }
  }

  lemma EscapedText(first: string, a: string, rest: string)
    requires '\'' !in first
    ensures "'" + Escape(first + "'" + a) + "'" + rest ==
            "'" + first + "'" + ("\\'" + ("'" + Escape(a) + "'" + rest))
  {
    EscapeSplit(first, a);
    FourPieces(first, Escape(a), rest);
  }

  lemma FourPieces(first: string, last: string, rest: string)
    ensures "'" + (first + "'\\''" + last) + "'" + rest == "'" + first + "'" + ("\\'" + ("'" + last + "'" + rest))
  {
    var tail := "'" + rest;
    Assoc("'" + (first + "'\\''" + last), "'", rest);
    Assoc("'" + last, "'", rest);
    assert "'" + (first + "'\\''" + last) + tail == "'" + first + "'" + ("\\'" + ("'" + last + tail));
  }

  /** Up to its first quote and with it, an argument is quoted in three pieces. */
  lemma LexEscapedPiece(first: string, a: string, rest: string, cur: Current)
    requires '\'' !in first
    ensures LexLine("'" + Escape(first + "'" + a) + "'" + rest, cur)
            == LexLine("'" + Escape(a) + "'" + rest, cur.Quote(first + "'"))
  {
    var after := "'" + Escape(a) + "'" + rest;
    EscapedText(first, a, rest);
    LexQuoted(first, "\\'" + after, cur);
    LexEscaped(after, cur.Quote(first));
    QuoteTwice(cur, first, "'");
  }

  /** Any text whatever survives being quoted and read as part of a word. */
  lemma {:induction false} LexQuotedArgument(a: string, rest: string, cur: Current)
    ensures LexLine("'" + Escape(a) + "'" + rest, cur) == LexLine(rest, cur.Quote(a))
    decreases |a|
  {
    var k := IndexOf(a, '\'');
    if k == |a| {
      assert a[..k] == a;
      EscapeSplit(a, "");
      LexQuoted(a, rest, cur);
    } else {
      var first, last := a[..k], a[k + 1..];
      assert a == first + "'" + last;
      LexEscapedPiece(first, last, rest, cur);
      LexQuotedArgument(last, rest, cur.Quote(first + "'"));
      QuoteTwice(cur, first + "'", last);
    }
  }

  /** The token an argument is read as; the empty argument prints as nothing. */
  function TokenOf(a: string): seq<Token> {
    if a == "" then [] else [Word(a, NeedsQuoting(a))]
  }

  function TokensOf(args: seq<string>): seq<Token> {
    if args == [] then [] else TokenOf(args[0]) + TokensOf(args[1..])
  }

  function WordOf(a: string): Current {
    if a == "" then NoWord else InWord(a, NeedsQuoting(a))
  }

  lemma PlainIsOrdinary(c: char)
    requires IsPlain(c)
    ensures IsOrdinary(c) && c != '\''
  {}

  lemma LexUnquoted(a: string, rest: string)
    requires a != "" && !NeedsQuoting(a)
    ensures LexLine(a + rest, NoWord) == LexLine(rest, InWord(a, false))
  {
    OrdinaryWord(a);
    LexPlain(a, rest, NoWord);
    assert "" + a == a;
  }

  lemma LexQuote(a: string, rest: string)
    ensures LexLine(Quote(a) + rest, NoWord) == LexLine(rest, WordOf(a))
  {
    if NeedsQuoting(a) {
      assert Quote(a) + rest == "'" + Escape(a) + "'" + rest;
      LexQuotedArgument(a, rest, NoWord);
      assert "" + a == a;
    } else if a != "" {
      LexUnquoted(a, rest);
    } else {
      assert Quote(a) + rest == rest;
    }
  }

  lemma LexArgument(a: string, rest: string)
    ensures LexLine(Quote(a) + (" " + rest), NoWord) == Prepend(TokenOf(a), LexLine(rest, NoWord))
    ensures LexLine(Quote(a) + ("\n" + rest), NoWord) == Some(Line(TokenOf(a), rest))
  {
    LexQuote(a, " " + rest);
    LexBlank(rest, WordOf(a));
    LexQuote(a, "\n" + rest);
    LexNewline(rest, WordOf(a));
  }

  /** A printed argument list, ended by a newline, is read back as its words. */
  lemma {:induction false} LexShellText(args: seq<string>, tail: string)
    ensures LexLine(ShellText(args) + "\n" + tail, NoWord) == Some(Line(TokensOf(args), tail))
  {
    if args == [] {
      assert ShellText(args) + "\n" + tail == "\n" + tail;
      LexNewline(tail, NoWord);
    } else {
      ShellTextHead(args, tail);
      if |args| == 1 {
        LexArgument(args[0], tail);
        assert TokensOf(args) == TokenOf(args[0]);
      } else {
        var rest := ShellText(args[1..]) + "\n" + tail;
        LexArgument(args[0], rest);
        LexShellText(args[1..], tail);
      }
    }
  }

  lemma ShellTextHead(args: seq<string>, tail: string)
    requires args != []
    ensures ShellText(args) + "\n" + tail == Quote(args[0]) +
            if |args| == 1 then "\n" + tail else " " + (ShellText(args[1..]) + "\n" + tail)
  {
    var first := Quote(args[0]);
    assert QuoteAll(args)[1..] == QuoteAll(args[1..]);
    if |args| == 1 {
      Assoc(first, "\n", tail);
    } else {
      var more := ShellText(args[1..]);
      Assoc(first + " ", more, "\n");
      Assoc(first + " ", more + "\n", tail);
      Assoc(first, " ", more + "\n" + tail);
    }
  }

  function Texts(tokens: seq<Token>): seq<string> {
    if tokens == [] then []
    else (if tokens[0].Word? then [tokens[0].text] else []) + Texts(tokens[1..])
  }

  lemma {:induction false} TextsOfTokens(args: seq<string>)
    ensures Texts(TokensOf(args)) == args <==> "" !in args
    ensures |Texts(TokensOf(args))| <= |args|
  {
    if args != [] {
      var rest := TokensOf(args[1..]);
      TextsOfTokens(args[1..]);
      assert args == [args[0]] + args[1..];
      if args[0] == "" {
        assert TokensOf(args) == rest;
      } else {
        assert (TokenOf(args[0]) + rest)[1..] == rest;
        assert Texts(TokensOf(args)) == [args[0]] + Texts(rest);
      }
    }
  }

  /** Reading the printed list gives back exactly the arguments, if and only if none is empty. */
  lemma ShellTextReadsBackIff(args: seq<string>, tail: string)
    ensures LexLine(ShellText(args) + "\n" + tail, NoWord).Some?
    ensures LexLine(ShellText(args) + "\n" + tail, NoWord).value.rest == tail
    ensures Texts(LexLine(ShellText(args) + "\n" + tail, NoWord).value.tokens) == args <==> "" !in args
  {
    LexShellText(args, tail);
    TextsOfTokens(args);
  }

  // ---- Here-document delimiters ----

  function Underscores(n: nat): string {
    if n == 0 then "" else "_" + Underscores(n - 1)
  }

  function Candidate(n: nat): string { Underscores(n) + "EOF" }

  lemma {:induction false} CandidateShape(n: nat)
    ensures |Candidate(n)| == n + 3
    ensures forall c :: c in Candidate(n) ==> IsOrdinary(c) && c != '\'' && c != '\n'
  {
    if n > 0 {
      CandidateShape(n - 1);
      assert Candidate(n) == "_" + Candidate(n - 1);
    }
  }

  /** The fewest leading underscores for which the delimiter does not occur. */
  ghost predicate IsPicked(content: string, delimiter: string) {
    exists n: nat ::
      && delimiter == Candidate(n)
      && !Contains(content, delimiter)
      && forall m: nat :: m < n ==> Contains(content, Candidate(m))
  }

  method PickDelimiter(content: string) returns (delimiter: string)
    ensures IsPicked(content, delimiter)
  {
    delimiter := "EOF";
    ghost var n: nat := 0;
    while Contains(content, delimiter)
      invariant delimiter == Candidate(n)
      invariant forall m: nat :: m < n ==> Contains(content, Candidate(m))
      decreases |content| - |delimiter|
    {
      ghost var i :| OccursAt(content, delimiter, i);
      CandidateShape(n);
      CandidateShape(n + 1);
      assert Candidate(n + 1) == "_" + Candidate(n);
      delimiter := "_" + delimiter;
      n := n + 1;
    }
  }

  // ---- write_files entries ----

  datatype WriteFile = WriteFile(path: string, content: string, permissions: string, append: bool)

  /** Whether the path has a slash, and the text before the last one. */
  function LastSlash(path: string): (r: Option<string>)
    ensures r.Some? <==> '/' in path
    ensures r.Some? ==> |r.value| < |path| && path[..|r.value|] == r.value && path[|r.value|] == '/'
    ensures r.Some? ==> '/' !in path[|r.value| + 1..]
  {
    if path == "" then None
    else
      var init, last := path[..|path| - 1], path[|path| - 1];
      assert path == init + [last];
      if last == '/' then Some(init)
      else
        var r := LastSlash(init);
        if r.Some? then
          assert path[..|r.value|] == init[..|r.value|] && path[|r.value|] == init[|r.value|];
          DropSnoc(init, last, |r.value| + 1);
          r
        else None
  }

  lemma DropSnoc(s: string, c: char, n: nat)
    requires n <= |s|
    ensures (s + [c])[n..] == s[n..] + [c]
  {}

  function MkdirLine(dir: string): string {
    "mkdir -p '" + dir + "'\n"
  }

  function CatText(wf: WriteFile, delimiter: string): string {
    "cat <<'" + delimiter + "' " + (if wf.append then ">>" else ">") + " '" + wf.path + "'\n"
  }

  function ChmodLine(wf: WriteFile): string {
    "\nchmod " + wf.permissions + " '" + wf.path + "'"
  }

  function MkdirText(dir: string): string {
    if dir == "" then "" else MkdirLine(dir)
  }

  function ChmodText(wf: WriteFile): string {
    if wf.permissions == "" then "" else ChmodLine(wf)
  }

  /** The content as it reaches the file: a missing final newline is added. */
  function Terminated(content: string): string {
    if content != "" && content[|content| - 1] == '\n' then content else content + "\n"
  }

  function FileText(wf: WriteFile, dir: string, delimiter: string): string {
    MkdirText(dir) + CatText(wf, delimiter) + Terminated(wf.content) + delimiter + ChmodText(wf)
  }

  /** Text that printing the entry may produce. */
  ghost predicate Rendered(wf: WriteFile, text: string) {
    '/' in wf.path &&
    exists delimiter :: IsPicked(wf.content, delimiter) && text == FileText(wf, LastSlash(wf.path).value, delimiter)
  }

  /** The text word for word, for any path whatever. */
  ghost predicate Prints(wf: WriteFile, dir: string, name: string, d: string, h: string, text: string) {
    && wf.path == dir + "/" + name && '/' !in name
    && IsPicked(wf.content, d) && Arrives(wf.content, h)
    && var mkdir := if dir == "" then "" else "mkdir -p '" + dir + "'\n";
       var cat := "cat <<'" + d + "' " + (if wf.append then ">>" else ">") + " '" + wf.path + "'\n";
       var chmod := if wf.permissions == "" then "" else "\nchmod " + wf.permissions + " '" + wf.path + "'";
       text == mkdir + cat + h + d + chmod
  }

  lemma RenderedText(wf: WriteFile, text: string)
    requires Rendered(wf, text)
    ensures exists dir, name, d, h :: Prints(wf, dir, name, d, h, text)
  {
    var dir := LastSlash(wf.path).value;
    var name := wf.path[|dir| + 1..];
    var d :| IsPicked(wf.content, d) && text == FileText(wf, dir, d);
    assert wf.path == dir + "/" + name;
    PrintsPieces(wf, dir, name, d, Terminated(wf.content), MkdirText(dir), CatText(wf, d), ChmodText(wf));
  }

  lemma PrintsPieces(wf: WriteFile, dir: string, name: string, d: string, h: string,
                     mkdir: string, cat: string, chmod: string)
    requires wf.path == dir + "/" + name && '/' !in name
    requires IsPicked(wf.content, d) && Arrives(wf.content, h)
    requires mkdir == MkdirText(dir) && cat == CatText(wf, d) && chmod == ChmodText(wf)
    ensures Prints(wf, dir, name, d, h, mkdir + cat + h + d + chmod)
  {}

  /** None is the run-time panic on a path without a slash. */
  method RenderWriteFile(wf: WriteFile) returns (text: Option<string>)
    ensures text.Some? <==> '/' in wf.path
    ensures text.Some? ==> Rendered(wf, text.value)
    ensures text.Some? ==> exists dir, name, d, h :: Prints(wf, dir, name, d, h, text.value)
  {
    var dir := LastSlash(wf.path);
    if dir.None? {
      return None;
    }
    var buf := "";
    if dir.value != "" {
      buf := buf + MkdirLine(dir.value);
    }
    assert buf == MkdirText(dir.value);
    var delimiter := PickDelimiter(wf.content);
    buf := buf + CatText(wf, delimiter);
    ghost var before := buf;
    buf := buf + wf.content;
    if wf.content == "" || wf.content[|wf.content| - 1] != '\n' {
      buf := buf + "\n";
      assert buf == before + (wf.content + "\n");
    }
    assert buf == before + Terminated(wf.content);
    buf := buf + delimiter;
    if wf.permissions != "" {
      buf := buf + ChmodLine(wf);
    }
    assert buf == FileText(wf, dir.value, delimiter);
    RenderedText(wf, buf);
    return Some(buf);
  }

  /** The commands an entry stands for. */
  function Commands(wf: WriteFile, dir: string): seq<Command> {
    (if dir == "" then [] else [Command([], ["mkdir", "-p", dir], None, None)])
    + [Command([], ["cat"], Some(Terminated(wf.content)), Some(Redirect(wf.append, wf.path)))]
    + (if wf.permissions == "" then [] else [Command([], ["chmod", wf.permissions, wf.path], None, None)])
  }

  function EntryCommands(wf: WriteFile): seq<Command> {
    match LastSlash(wf.path)
    case Some(dir) => Commands(wf, dir)
    case None => []
  }

  /** What reaches a file: the content, with a final newline added if it has none. */
  ghost predicate Arrives(content: string, h: string) {
    if content != "" && content[|content| - 1] == '\n' then h == content else h == content + "\n"
  }

  /** The commands make the directory, write the content to the path and set the permissions, each only where asked. */
  ghost predicate CarryOut(cs: seq<Command>, wf: WriteFile, dir: string, name: string, h: string) {
    && wf.path == dir + "/" + name && '/' !in name
    && Arrives(wf.content, h)
    && cs == (if dir == "" then [] else [Command([], ["mkdir", "-p", dir], None, None)])
             + [Command([], ["cat"], Some(h), Some(Redirect(wf.append, wf.path)))]
             + (if wf.permissions == "" then [] else [Command([], ["chmod", wf.permissions, wf.path], None, None)])
  }

  ghost predicate Writes(cs: seq<Command>, wf: WriteFile) {
    exists dir, name, h :: CarryOut(cs, wf, dir, name, h)
  }

  /** The commands of several entries, one entry after the other. */
  ghost predicate WriteAll(cs: seq<Command>, wfs: seq<WriteFile>) {
    if wfs == [] then cs == []
    else exists n :: 0 <= n <= |cs| && Writes(cs[..n], wfs[0]) && WriteAll(cs[n..], wfs[1..])
  }

  lemma WritesIff(cs: seq<Command>, wf: WriteFile)
    ensures Writes(cs, wf) <==> '/' in wf.path && cs == EntryCommands(wf)
  {
    if '/' in wf.path {
      var dir := LastSlash(wf.path).value;
      var name := wf.path[|dir| + 1..];
      assert wf.path == dir + "/" + name;
      if cs == EntryCommands(wf) {
        assert CarryOut(cs, wf, dir, name, Terminated(wf.content));
      }
    }
    if dir, name, h :| CarryOut(cs, wf, dir, name, h) {
      assert wf.path[|dir|] == '/';
      SlashIsLast(wf.path, dir, name);
    }
  }

  lemma SlashIsLast(path: string, dir: string, name: string)
    requires path == dir + "/" + name && '/' !in name
    ensures LastSlash(path) == Some(dir)
  {
    assert path[|dir|] == '/';
    var n := |LastSlash(path).value|;
    forall i | |dir| < i < |path| ensures path[i] != '/' {
      assert path[i] == name[i - |dir| - 1];
    }
    forall i | n < i < |path| ensures path[i] != '/' {
      assert path[i] in path[n + 1..];
    }
    assert path[..|dir|] == dir;
  }

  lemma {:induction false} WriteAllIff(cs: seq<Command>, wfs: seq<WriteFile>)
    requires forall wf :: wf in wfs ==> '/' in wf.path
    ensures WriteAll(cs, wfs) <==> cs == AllCommands(wfs)
  {
    if wfs != [] {
      assert wfs[0] in wfs;
      forall n | 0 <= n <= |cs|
        ensures Writes(cs[..n], wfs[0]) && WriteAll(cs[n..], wfs[1..]) <==>
                cs[..n] == EntryCommands(wfs[0]) && cs[n..] == AllCommands(wfs[1..])
      {
        WritesIff(cs[..n], wfs[0]);
        WriteAllIff(cs[n..], wfs[1..]);
      }
      InTwoParts(cs, EntryCommands(wfs[0]), AllCommands(wfs[1..]));
    }
  }

  lemma InTwoParts(cs: seq<Command>, first: seq<Command>, rest: seq<Command>)
    ensures (exists n :: 0 <= n <= |cs| && cs[..n] == first && cs[n..] == rest) <==> cs == first + rest
  {
    if n :| 0 <= n <= |cs| && cs[..n] == first && cs[n..] == rest {
      assert cs == cs[..n] + cs[n..];
    }
    if cs == first + rest {
      assert cs[..|first|] == first && cs[|first|..] == rest;
    }
  }

  // ---- Reading the printed lines ----

  lemma LexKeyword(w: string, rest: string)
    requires w != "" && !NeedsQuoting(w)
    ensures LexLine(w + " " + rest, NoWord) == Prepend([Word(w, false)], LexLine(rest, NoWord))
  {
    assert w + " " + rest == w + (" " + rest);
    LexUnquoted(w, " " + rest);
    LexBlank(rest, InWord(w, false));
  }

  lemma LexQuotedWord(w: string, rest: string)
    requires '\'' !in w
    ensures LexLine("'" + w + "' " + rest, NoWord) == Prepend([Word(w, true)], LexLine(rest, NoWord))
  {
    assert "" + w == w;
    assert "'" + w + "' " + rest == "'" + w + "'" + (" " + rest);
    LexQuoted(w, " " + rest, NoWord);
    LexBlank(rest, InWord(w, true));
  }

  lemma LexQuotedLast(w: string, rest: string)
    requires '\'' !in w
    ensures LexLine("'" + w + "'\n" + rest, NoWord) == Some(Line([Word(w, true)], rest))
  {
    assert "" + w == w;
    assert "'" + w + "'\n" + rest == "'" + w + "'" + ("\n" + rest);
    LexQuoted(w, "\n" + rest, NoWord);
    LexNewline(rest, InWord(w, true));
  }

  /** Two plain words, and whatever follows. */
  lemma LexTwoWords(a: string, b: string, target: string)
    requires a != "" && !NeedsQuoting(a) && b != "" && !NeedsQuoting(b)
    ensures LexLine(a + " " + b + " " + target, NoWord) ==
            Prepend([Word(a, false), Word(b, false)], LexLine(target, NoWord))
  {
    var s1 := b + " " + target;
    assert a + " " + b + " " + target == a + " " + s1;
    LexKeyword(a, s1);
    LexKeyword(b, target);
    PrependTwice([Word(a, false)], [Word(b, false)], LexLine(target, NoWord));
    assert [Word(a, false)] + [Word(b, false)] == [Word(a, false), Word(b, false)];
  }

  lemma PrependTwice(a: seq<Token>, b: seq<Token>, line: Option<Line>)
    ensures Prepend(a, Prepend(b, line)) == Prepend(a + b, line)
  {
    if line.Some? {
      assert a + (b + line.value.tokens) == (a + b) + line.value.tokens;
    }
  }

  /** Two plain words and a quoted one. */
  lemma LexThreeWords(a: string, b: string, c: string, rest: string)
    requires a != "" && !NeedsQuoting(a) && b != "" && !NeedsQuoting(b) && '\'' !in c
    ensures LexLine(a + " " + b + " '" + c + "'\n" + rest, NoWord) ==
            Some(Line([Word(a, false), Word(b, false), Word(c, true)], rest))
  {
    var target := "'" + c + "'\n" + rest;
    assert a + " " + b + " '" + c + "'\n" + rest == a + " " + b + " " + target;
    LexTwoWords(a, b, target);
    LexQuotedLast(c, rest);
    assert [Word(a, false), Word(b, false)] + [Word(c, true)] == [Word(a, false), Word(b, false), Word(c, true)];
  }

  lemma LexHereOperator(d: string, rest: string)
    requires '\'' !in d
    ensures LexLine("<<'" + d + "' " + rest, NoWord) == Prepend([Operator("<<"), Word(d, true)], LexLine(rest, NoWord))
  {
    var s := "'" + d + "' " + rest;
    assert "<<'" + d + "' " + rest == ['<', '<'] + s;
    LexOperator('<', s);
    LexQuotedWord(d, rest);
    PrependTwice([Operator("<<")], [Word(d, true)], LexLine(rest, NoWord));
    assert [Operator("<<")] + [Word(d, true)] == [Operator("<<"), Word(d, true)];
  }

  lemma LexRedirect(op: string, target: string)
    requires op == ">" || op == ">>"
    ensures LexLine(op + " " + target, NoWord) == Prepend([Operator(op)], LexLine(target, NoWord))
  {
    assert op + " " + target == op + (" " + target);
    LexOperator('>', " " + target);
    LexBlank(target, NoWord);
    PrependNothing(target);
  }

  /** A plain word, a here-document operator, and an output redirection whose target is still to come. */
  lemma LexHereStart(a: string, d: string, op: string, target: string)
    requires a != "" && !NeedsQuoting(a) && '\'' !in d && (op == ">" || op == ">>")
    ensures LexLine(a + " <<'" + d + "' " + op + " " + target, NoWord) ==
            Prepend(HereTokens(a, d, op), LexLine(target, NoWord))
  {
    var s2 := op + " " + target;
    var s1 := "<<'" + d + "' " + s2;
    var line := LexLine(target, NoWord);
    assert a + " <<'" + d + "' " + op + " " + target == a + " " + s1;
    LexKeyword(a, s1);
    LexHereOperator(d, s2);
    LexRedirect(op, target);
    PrependTwice([Operator("<<"), Word(d, true)], [Operator(op)], line);
    PrependTwice([Word(a, false)], [Operator("<<"), Word(d, true)] + [Operator(op)], line);
    assert [Word(a, false)] + ([Operator("<<"), Word(d, true)] + [Operator(op)]) == HereTokens(a, d, op);
  }

  function HereTokens(a: string, d: string, op: string): seq<Token> {
    [Word(a, false), Operator("<<"), Word(d, true), Operator(op)]
  }

  lemma LexHereTarget(a: string, d: string, op: string, c: string, rest: string)
    requires a != "" && !NeedsQuoting(a) && '\'' !in d && (op == ">" || op == ">>")
    ensures LexLine(a + " <<'" + d + "' " + op + " '" + c + "'\n" + rest, NoWord) ==
            Prepend(HereTokens(a, d, op), LexLine("'" + c + "'\n" + rest, NoWord))
  {
    var target := "'" + c + "'\n" + rest;
    assert a + " <<'" + d + "' " + op + " '" + c + "'\n" + rest == a + " <<'" + d + "' " + op + " " + target;
    LexHereStart(a, d, op, target);
  }

  lemma LexHereCommand(a: string, d: string, op: string, c: string, rest: string)
    requires a != "" && !NeedsQuoting(a) && '\'' !in d && '\'' !in c && (op == ">" || op == ">>")
    ensures LexLine(a + " <<'" + d + "' " + op + " '" + c + "'\n" + rest, NoWord) ==
            Some(Line(HereTokens(a, d, op) + [Word(c, true)], rest))
  {
    LexHereTarget(a, d, op, c, rest);
    LexQuotedLast(c, rest);
  }

  lemma PrependNothing(s: string)
    ensures Prepend([], LexLine(s, NoWord)) == LexLine(s, NoWord)
  {
    match LexLine(s, NoWord)
    case Some(l) => assert [] + l.tokens == l.tokens;
    case None =>
  }

  lemma MkdirIsPlain()
    ensures !NeedsQuoting("mkdir") && IsCommandName("mkdir") && !NeedsQuoting("-p")
  {
    CommandName("mkdir");
  }

  lemma CatIsPlain()
    ensures !NeedsQuoting("cat") && IsCommandName("cat")
  {
    CommandName("cat");
  }

  lemma ChmodIsPlain()
    ensures !NeedsQuoting("chmod") && IsCommandName("chmod")
  {
    CommandName("chmod");
  }

  lemma CommandName(w: string)
    requires '=' !in w && !IsReserved(w)
    ensures IsCommandName(w)
  {}

  /** Unquoted in front of a command, a reserved word or an assignment is not its name. */
  predicate IsCommandName(w: string) { !IsReserved(w) && !IsAssignment(w) }

  // ---- Reading the printed entries ----

  function Followed(cs: seq<Command>, rest: Option<seq<Command>>): Option<seq<Command>> {
    if rest.None? then None else Some(cs + rest.value)
  }

  /** After the first word of a command all words are its words. */
  lemma {:induction false} ParseMoreWords(tokens: seq<Token>)
    requires forall token :: token in tokens ==> token.Word?
    ensures ParseSimple(tokens, true) == Some(Pending([], Texts(tokens), None, None))
  {
    if tokens != [] {
      ParseMoreWords(tokens[1..]);
    }
  }

  /** Words alone make a command; what was assigned comes first among them. */
  lemma {:induction false} ParseWords(tokens: seq<Token>)
    requires forall token :: token in tokens ==> token.Word?
    ensures var c := ParseSimple(tokens, false);
            && c.Some? && c.value.delimiter.None? && c.value.output.None?
            && c.value.assignments + c.value.words == Texts(tokens)
            && (c.value.assignments != [] <==>
                tokens != [] && !tokens[0].quoted && IsAssignment(tokens[0].text))
  {
    if tokens != [] {
      var text, rest := tokens[0].text, tokens[1..];
      if !tokens[0].quoted && IsAssignment(text) {
        ParseWords(rest);
        var c := ParseSimple(rest, false).value;
        assert ParseSimple(tokens, false) == Some(c.(assignments := [text] + c.assignments));
        assert [text] + (c.assignments + c.words) == ([text] + c.assignments) + c.words;
      } else {
        ParseMoreWords(rest);
        assert [] + ([text] + Texts(rest)) == [text] + Texts(rest);
      }
    }
  }

  /** What follows the start of a here-document command decides the target and the rest. */
  lemma ParseHereCommand(a: string, d: string, op: string, c: Token, more: seq<Token>)
    requires op == ">" || op == ">>"
    requires IsCommandName(a) && c.Word?
    ensures var command := ParseCommand(HereTokens(a, d, op) + ([c] + more));
            && (command.Some? ==> command.value.output == Some(Redirect(op == ">>", c.text)))
            && (more == [] ==> command == Some(Pending([], [a], Some(d), Some(Redirect(op == ">>", c.text)))))
  {
    var tokens := HereTokens(a, d, op) + ([c] + more);
    var t1, t3 := tokens[1..], tokens[1..][2..];
    assert t1 == [Operator("<<"), Word(d, true), Operator(op), c] + more;
    assert t3 == [Operator(op), c] + more;
    assert t3[2..] == more;
    assert ParseSimple(t3, true).Some? ==>
        ParseSimple(t3, true).value.output == Some(Redirect(op == ">>", c.text));
    assert ParseCommand(tokens).Some? ==> ParseSimple(t1, true).Some?;
    if more == [] {
      assert ParseSimple(t3, true) == Some(Pending([], [], None, Some(Redirect(op == ">>", c.text))));
      assert ParseSimple(t1, true) == Some(Pending([], [], Some(d), Some(Redirect(op == ">>", c.text))));
      assert [a] + [] == [a];
    }
  }

  lemma ReadThreeWords(a: string, b: string, c: string, rest: string)
    requires a != "" && !NeedsQuoting(a) && b != "" && !NeedsQuoting(b) && '\'' !in c
    requires IsCommandName(a)
    ensures ReadScript(a + " " + b + " '" + c + "'\n" + rest)
            == Followed([Command([], [a, b, c], None, None)], ReadScript(rest))
  {
    var tokens := [Word(a, false), Word(b, false), Word(c, true)];
    LexThreeWords(a, b, c, rest);
    ParseWords(tokens);
    assert tokens[1..] == [Word(b, false), Word(c, true)] && tokens[2..] == [Word(c, true)];
    assert Texts(tokens[2..]) == [c] + Texts(tokens[2..][1..]);
    assert Texts(tokens[1..]) == [b] + Texts(tokens[1..][1..]);
    assert tokens[1..][1..] == tokens[2..];
    assert Texts(tokens) == [a] + ([b] + ([c] + [])) == [a, b, c];
    var command := ParseSimple(tokens, false).value;
    assert command.assignments + command.words == command.words;
  }

  lemma ReadHereCommand(a: string, d: string, op: string, c: string, body: string, rest: string)
    requires a != "" && !NeedsQuoting(a) && '\'' !in d && '\'' !in c && (op == ">" || op == ">>")
    requires (body == "" || body[|body| - 1] == '\n') && '\n' !in d && !Contains(body, d)
    requires IsCommandName(a)
    ensures ReadScript(a + " <<'" + d + "' " + op + " '" + c + "'\n" + (body + d + "\n" + rest))
            == Followed([Command([], [a], Some(body), Some(Redirect(op == ">>", c)))], ReadScript(rest))
  {
    LexHereCommand(a, d, op, c, body + d + "\n" + rest);
    ParseHereCommand(a, d, op, Word(c, true), []);
    assert [Word(c, true)] + [] == [Word(c, true)];
    HereBody(body, d, rest);
  }

  /** Adding a final newline cannot make a delimiter occur. */
  lemma TerminatedIsFree(content: string, d: string)
    requires d != "" && '\n' !in d
    ensures Contains(Terminated(content), d) ==> Contains(content, d)
  {
    var s := Terminated(content);
    forall i | OccursAt(s, d, i) ensures OccursAt(content, d, i) {
      var last := |d| - 1;
      assert s[i..i + |d|][last] == s[i + last] == d[last];
      assert d[last] in d;
      assert s[i..i + |d|] == content[i..i + |d|];
    }
  }

  lemma PickedShape(content: string, d: string)
    requires IsPicked(content, d)
    ensures d != "" && '\n' !in d && '\'' !in d && !Contains(content, d)
  {
    var n: nat :| d == Candidate(n);
    CandidateShape(n);
  }

  /** Plain permissions include every octal number. */
  ghost predicate Readable(wf: WriteFile) {
    '/' in wf.path && '\'' !in wf.path && !NeedsQuoting(wf.permissions)
  }

  // ---- The lines of an entry ----

  lemma MkdirWords(dir: string, tail: string)
    ensures MkdirLine(dir) + tail == "mkdir" + " " + "-p" + " '" + dir + "'\n" + tail
  {
    assert "mkdir -p '" == "mkdir" + " " + "-p" + " '";
  }

  lemma CatWords(wf: WriteFile, d: string, tail: string)
    ensures CatText(wf, d) + tail == "cat" + " <<'" + d + "' " + (if wf.append then ">>" else ">") + " '" + wf.path + "'\n" + tail
  {
    assert "cat <<'" == "cat" + " <<'";
  }

  lemma ChmodWords(wf: WriteFile, tail: string)
    ensures ChmodLine(wf)[1..] + "\n" + tail == "chmod" + " " + wf.permissions + " '" + wf.path + "'\n" + tail
  {
    assert "\nchmod " == "\n" + ("chmod" + " ");
  }

  lemma ReadMkdirLine(dir: string, rest: string)
    requires '\'' !in dir
    ensures ReadScript(MkdirLine(dir) + rest)
            == Followed([Command([], ["mkdir", "-p", dir], None, None)], ReadScript(rest))
  {
    MkdirIsPlain();
    MkdirWords(dir, rest);
    ReadThreeWords("mkdir", "-p", dir, rest);
  }

  lemma ReadChmodLine(wf: WriteFile, rest: string)
    requires wf.permissions != "" && !NeedsQuoting(wf.permissions) && '\'' !in wf.path
    ensures ReadScript(ChmodLine(wf)[1..] + "\n" + rest)
            == Followed([Command([], ["chmod", wf.permissions, wf.path], None, None)], ReadScript(rest))
  {
    ChmodIsPlain();
    ChmodWords(wf, rest);
    ReadThreeWords("chmod", wf.permissions, wf.path, rest);
  }

  lemma ReadCatLines(wf: WriteFile, d: string, rest: string)
    requires '\'' !in wf.path && IsPicked(wf.content, d)
    ensures ReadScript(CatText(wf, d) + (Terminated(wf.content) + d + "\n" + rest))
            == Followed([Command([], ["cat"], Some(Terminated(wf.content)), Some(Redirect(wf.append, wf.path)))],
                        ReadScript(rest))
  {
    CatIsPlain();
    PickedShape(wf.content, d);
    TerminatedIsFree(wf.content, d);
    CatWords(wf, d, Terminated(wf.content) + d + "\n" + rest);
    ReadHereCommand("cat", d, if wf.append then ">>" else ">", wf.path, Terminated(wf.content), rest);
  }

  /** The entry without the line that makes its directory. */
  lemma ReadCatAndChmod(wf: WriteFile, d: string, after: string, tail: string)
    requires Readable(wf) && IsPicked(wf.content, d)
    requires after == Terminated(wf.content) + d + ChmodText(wf) + "\n" + tail
    ensures ReadScript(CatText(wf, d) + after) == Followed(Commands(wf, ""), ReadScript(tail))
  {
    var rest := if wf.permissions == "" then tail else ChmodLine(wf)[1..] + "\n" + tail;
    var cat := Command([], ["cat"], Some(Terminated(wf.content)), Some(Redirect(wf.append, wf.path)));
    AfterContent(wf, d, after, tail);
    ReadCatLines(wf, d, rest);
    if wf.permissions == "" {
      assert Commands(wf, "") == [cat];
    } else {
      var chmod := Command([], ["chmod", wf.permissions, wf.path], None, None);
      ReadChmodLine(wf, tail);
      FollowedTwice([cat], [chmod], ReadScript(tail));
      assert Commands(wf, "") == [cat] + [chmod];
    }
  }

  lemma AfterContent(wf: WriteFile, d: string, after: string, tail: string)
    requires after == Terminated(wf.content) + d + ChmodText(wf) + "\n" + tail
    ensures after == Terminated(wf.content) + d + "\n"
                     + if wf.permissions == "" then tail else ChmodLine(wf)[1..] + "\n" + tail
  {
    var before := Terminated(wf.content) + d;
    if wf.permissions != "" {
      var line := ChmodLine(wf)[1..];
      assert ChmodLine(wf) == "\n" + line;
      Assoc(before, "\n", line);
      Assoc(before + "\n", line, "\n");
      Assoc(before + "\n", line + "\n", tail);
    }
  }

  lemma EntrySplit(wf: WriteFile, dir: string, d: string, tail: string, after: string)
    requires after == Terminated(wf.content) + d + ChmodText(wf) + "\n" + tail
    ensures FileText(wf, dir, d) + "\n" + tail == MkdirText(dir) + (CatText(wf, d) + after)
  {
    var mkdir, cat, content, chmod := MkdirText(dir), CatText(wf, d), Terminated(wf.content), ChmodText(wf);
    Assoc(mkdir + cat, content, d);
    Assoc(mkdir + cat, content + d, chmod);
    Assoc(mkdir + cat, content + d + chmod, "\n");
    Assoc(mkdir + cat, content + d + chmod + "\n", tail);
    Assoc(mkdir, cat, after);
  }

  lemma FollowedTwice(cs: seq<Command>, ds: seq<Command>, rest: Option<seq<Command>>)
    ensures Followed(cs, Followed(ds, rest)) == Followed(cs + ds, rest)
  {
    if rest.Some? {
      assert cs + (ds + rest.value) == (cs + ds) + rest.value;
    }
  }

  /**
   A printed entry, whatever its content and whatever script follows, is read
   back as commands that write it: same path, append flag and permissions, and
   the content with a final newline.
   */
  lemma EntryReadsBack(wf: WriteFile, text: string, tail: string)
    requires Readable(wf) && Rendered(wf, text)
    ensures exists cs :: Writes(cs, wf) && ReadScript(text + "\n" + tail) == Followed(cs, ReadScript(tail))
  {
    EntryReadsAsCommands(wf, text, tail);
    WritesIff(EntryCommands(wf), wf);
  }

  lemma EntryReadsAsCommands(wf: WriteFile, text: string, tail: string)
    requires Readable(wf) && Rendered(wf, text)
    ensures ReadScript(text + "\n" + tail) == Followed(EntryCommands(wf), ReadScript(tail))
  {
    var dir := LastSlash(wf.path).value;
    var d :| IsPicked(wf.content, d) && text == FileText(wf, dir, d);
    var after := Terminated(wf.content) + d + ChmodText(wf) + "\n" + tail;
    EntrySplit(wf, dir, d, tail, after);
    ReadCatAndChmod(wf, d, after, tail);
    DirHasNoQuote(wf.path, '\'');
    ReadWithMkdir(wf, dir, CatText(wf, d) + after, ReadScript(tail));
  }

  lemma ReadWithMkdir(wf: WriteFile, dir: string, cat: string, rest: Option<seq<Command>>)
    requires '\'' !in dir && ReadScript(cat) == Followed(Commands(wf, ""), rest)
    ensures ReadScript(MkdirText(dir) + cat) == Followed(Commands(wf, dir), rest)
  {
    if dir == "" {
      assert MkdirText(dir) + cat == cat;
    } else {
      var mkdir := Command([], ["mkdir", "-p", dir], None, None);
      ReadMkdirLine(dir, cat);
      FollowedTwice([mkdir], Commands(wf, ""), rest);
      assert Commands(wf, dir) == [mkdir] + Commands(wf, "");
    }
  }

  lemma DirHasNoQuote(path: string, c: char)
    requires '/' in path && c !in path
    ensures c !in LastSlash(path).value
  {
    var dir := LastSlash(path).value;
    forall x | x in dir ensures x in path {
      var i :| 0 <= i < |dir| && dir[i] == x;
      assert path[..|dir|][i] == x;
    }
  }

  function Lines(texts: seq<string>): string {
    if texts == [] then "" else texts[0] + "\n" + Lines(texts[1..])
  }

  function AllCommands(wfs: seq<WriteFile>): seq<Command> {
    if wfs == [] then [] else EntryCommands(wfs[0]) + AllCommands(wfs[1..])
  }

  /** A whole section of entries, one after the other. */
  lemma EntriesReadBack(wfs: seq<WriteFile>, texts: seq<string>, tail: string)
    requires |texts| == |wfs|
    requires forall i :: 0 <= i < |wfs| ==> Readable(wfs[i]) && Rendered(wfs[i], texts[i])
    ensures exists cs :: WriteAll(cs, wfs) && ReadScript(Lines(texts) + tail) == Followed(cs, ReadScript(tail))
  {
    EntriesReadAsCommands(wfs, texts, tail);
    WriteAllIff(AllCommands(wfs), wfs);
  }

  lemma {:induction false} EntriesReadAsCommands(wfs: seq<WriteFile>, texts: seq<string>, tail: string)
    requires |texts| == |wfs|
    requires forall i :: 0 <= i < |wfs| ==> Readable(wfs[i]) && Rendered(wfs[i], texts[i])
    ensures ReadScript(Lines(texts) + tail) == Followed(AllCommands(wfs), ReadScript(tail))
  {
    if wfs == [] {
      assert Lines(texts) + tail == tail;
      assert ReadScript(tail).Some? ==> [] + ReadScript(tail).value == ReadScript(tail).value;
    } else {
      var rest := Lines(texts[1..]) + tail;
      EntriesReadAsCommands(wfs[1..], texts[1..], tail);
      FirstOfSection(wfs, texts, tail, ReadScript(tail));
      EntryReadsAsCommands(wfs[0], texts[0], rest);
    }
  }

  lemma FirstOfSection(wfs: seq<WriteFile>, texts: seq<string>, tail: string, rest: Option<seq<Command>>)
    requires |texts| == |wfs| > 0
    ensures Lines(texts) + tail == texts[0] + "\n" + (Lines(texts[1..]) + tail)
    ensures Followed(AllCommands(wfs), rest)
            == Followed(EntryCommands(wfs[0]), Followed(AllCommands(wfs[1..]), rest))
  {
    Assoc(texts[0] + "\n", Lines(texts[1..]), tail);
    FollowedTwice(EntryCommands(wfs[0]), AllCommands(wfs[1..]), rest);
  }

  /** What the shell runs as a command with these arguments when printed. */
  predicate IsRunnable(args: seq<string>) {
    args != [] && "" !in args && (NeedsQuoting(args[0]) || IsCommandName(args[0]))
  }

  /**
   A command given as an argument list is read back as that command, whatever
   script follows, exactly if no argument is empty and the first one is not
   printed as a reserved word or an assignment.
   */
  lemma CommandReadsBackIff(args: seq<string>, tail: string)
    ensures ReadScript(ShellText(args) + "\n" + tail) == Followed([Command([], args, None, None)], ReadScript(tail))
            <==> ReadScript(tail).None? || IsRunnable(args)
  {
    var tokens := TokensOf(args);
    TextsOfTokens(args);
    ReadWords(args, tail);
    if args != [] && args[0] != "" {
      FirstToken(args);
    }
    if ReadScript(tail).Some? && tokens != [] && !StartsReserved(tokens) {
      var c := ParseSimple(tokens, false).value;
      CommandIsWords(c.assignments, c.words, args, ReadScript(tail));
    } else if ReadScript(tail).Some? && tokens == [] {
      assert |[Command([], args, None, None)] + ReadScript(tail).value| == 1 + |ReadScript(tail).value|;
    }
  }

  /** A printed list is a line of words, which may be nothing or be refused. */
  lemma ReadWords(args: seq<string>, tail: string)
    ensures var tokens, read := TokensOf(args), ReadScript(ShellText(args) + "\n" + tail);
            var c := ParseSimple(tokens, false);
            && (tokens == [] ==> read == ReadScript(tail))
            && (StartsReserved(tokens) ==> read == None)
            && c.Some? && c.value.assignments + c.value.words == Texts(tokens)
            && (tokens != [] && !StartsReserved(tokens) ==>
                  && read == Followed([Command(c.value.assignments, c.value.words, None, None)], ReadScript(tail))
                  && tokens[0].Word?
                  && (c.value.assignments == [] <==> tokens[0].quoted || !IsAssignment(tokens[0].text)))
  {
    LexShellText(args, tail);
    TokensAreWords(args);
    ParseWords(TokensOf(args));
  }

  lemma CommandIsWords(settings: seq<string>, words: seq<string>, args: seq<string>, rest: Option<seq<Command>>)
    requires rest.Some?
    ensures Followed([Command(settings, words, None, None)], rest) == Followed([Command([], args, None, None)], rest)
            <==> settings == [] && settings + words == args
  {
    var read, meant := [Command(settings, words, None, None)] + rest.value, [Command([], args, None, None)] + rest.value;
    if read == meant {
      assert read[0] == meant[0];
    }
    assert [] + words == words;
  }

  lemma FirstToken(args: seq<string>)
    requires args != [] && args[0] != ""
    ensures TokensOf(args) != [] && TokensOf(args)[0] == Word(args[0], NeedsQuoting(args[0]))
  {}

  lemma {:induction false} TokensAreWords(args: seq<string>)
    ensures forall token :: token in TokensOf(args) ==> token.Word?
  {
    if args != [] {
      TokensAreWords(args[1..]);
    }
  }

  lemma OrdinaryWord(w: string)
    requires !NeedsQuoting(w)
    ensures forall c :: c in w ==> IsOrdinary(c)
  {
    forall c | c in w ensures IsOrdinary(c) {
      var i :| 0 <= i < |w| && w[i] == c;
      assert IsPlain(w[i]);
      PlainIsOrdinary(c);
    }
  }
}
