/**
 Paths of written files are printed between quotes but not escaped (script.go,
 lines 52, 61 and 69). What the reader makes of them: which lines, and which
 whole entries, come back.
 */
module ShellPaths {
  import opened Wrappers
  import opened Text
  import opened ShellReader
  import opened ShellPrinter

  // ---- The first word of a line ----

  /** If the line can be read it starts with a word which starts with this text. */
  predicate StartsWith(line: Option<Line>, text: string, longest: nat) {
    line.Some? ==>
      && |line.value.rest| <= longest
      && line.value.tokens != [] && line.value.tokens[0].Word? && text <= line.value.tokens[0].text
  }

  lemma StartsShorter(line: Option<Line>, text: string, more: string, longest: nat, longest': nat)
    requires StartsWith(line, text + more, longest) && longest <= longest'
    ensures StartsWith(line, text, longest')
  {
    assert text <= text + more;
  }

  /** What has been recognized of a word stays its beginning. */
  lemma {:induction false} WordGrows(s: string, cur: Current)
    requires cur.InWord?
    ensures StartsWith(LexLine(s, cur), cur.text, |s|)
    decreases |s|
  {
    if s != "" {
      var c, t := s[0], s[1..];
      assert s == [c] + t;
      if c == '\'' {
        QuoteGrows(t, cur);
      } else if c == '\\' {
        EscapeGrows(t, cur);
      } else if IsOrdinary(c) {
        LexPlain([c], t, cur);
        WordGrows(t, InWord(cur.text + [c], cur.quoted));
        StartsShorter(LexLine(s, cur), cur.text, [c], |t|, |s|);
      } else {
        WordEnds(c, t, cur);
      }
    }
  }

  lemma {:induction false} QuoteGrows(t: string, cur: Current)
    requires cur.InWord?
    ensures StartsWith(LexLine("'" + t, cur), cur.text, |t|)
    decreases |t|
  {
    LexOpen(t, cur);
    var k := IndexOf(t, '\'');
    if k < |t| {
      WordGrows(t[k + 1..], cur.Quote(t[..k]));
      StartsShorter(LexLine("'" + t, cur), cur.text, t[..k], |t[k + 1..]|, |t|);
    }
  }

  lemma {:induction false} EscapeGrows(t: string, cur: Current)
    requires cur.InWord?
    ensures StartsWith(LexLine("\\" + t, cur), cur.text, |t|)
    decreases |t|
  {
    assert ("\\" + t)[1..] == t;
    if t != "" {
      var more := if t[0] == '\n' then "" else [t[0]];
      WordGrows(t[1..], if t[0] == '\n' then cur else cur.Quote(more));
      assert cur.text + "" == cur.text;
      StartsShorter(LexLine("\\" + t, cur), cur.text, more, |t[1..]|, |t|);
    }
  }

  /** A word that cannot be path: too short, or the closing quote opened a quotation over the line's end. */
  predicate Misread(line: Option<Line>, longest: nat, tail: string) {
    line.Some? ==>
      && line.value.tokens != [] && line.value.tokens[0].Word?
      && (|line.value.tokens[0].text| <= longest
          || ('\n' in line.value.tokens[0].text && |line.value.rest| < |tail|))
  }

  /** Reading r outside quotes yields at most |r| characters, or runs into the text after the line. */
  lemma {:induction false} LexOutsideQuotes(r: string, tail: string, cur: Current)
    requires cur.InWord?
    ensures Misread(LexLine(r + "'\n" + tail, cur), |cur.text| + |r|, tail)
    decreases |r|
  {
    if r == "" {
      QuoteOpens(tail, cur);
      assert r + "'\n" + tail == "'\n" + tail;
    } else {
      var c, t := r[0], r[1..];
      var after := t + "'\n" + tail;
      assert r + "'\n" + tail == [c] + after;
      if c == '\'' {
        QuoteInside(t, tail, cur);
      } else if c == '\\' {
        Escaped(t, tail, cur);
      } else if IsOrdinary(c) {
        var next := InWord(cur.text + [c], cur.quoted);
        LexPlain([c], after, cur);
        LexOutsideQuotes(t, tail, next);
      } else {
        WordEnds(c, after, cur);
      }
    }
  }

  lemma WordEnds(c: char, after: string, cur: Current)
    requires cur.InWord? && !IsOrdinary(c) && c != '\'' && c != '\\'
    ensures var line := LexLine([c] + after, cur);
            line.Some? ==> line.value.tokens != [] && line.value.tokens[0] == Word(cur.text, cur.quoted)
  {}

  lemma {:induction false} Escaped(t: string, tail: string, cur: Current)
    requires cur.InWord?
    ensures Misread(LexLine("\\" + (t + "'\n" + tail), cur), |cur.text| + |t| + 1, tail)
    decreases |t|
  {
    var s := t + "'\n" + tail;
    assert ("\\" + s)[1..] == s;
    if t == "" {
      assert s[1..] == "\n" + tail;
      LexNewline(tail, cur.Quote("'"));
    } else {
      assert s[1..] == t[1..] + "'\n" + tail;
      LexOutsideQuotes(t[1..], tail, if t[0] == '\n' then cur else cur.Quote([t[0]]));
    }
  }

  lemma QuoteOpens(tail: string, cur: Current)
    requires cur.InWord?
    ensures Misread(LexLine("'\n" + tail, cur), |cur.text|, tail)
  {
    var t := "\n" + tail;
    var k := IndexOf(t, '\'');
    assert "'\n" + tail == "'" + t;
    LexOpen(t, cur);
    if k < |t| {
      var piece, rest := t[..k], t[k + 1..];
      var line := LexLine(rest, cur.Quote(piece));
      assert piece[0] == '\n';
      WordGrows(rest, cur.Quote(piece));
      if line.Some? {
        HasNewline(line.value.tokens[0].text, cur.text, piece);
      }
    }
  }

  lemma HasNewline(word: string, before: string, piece: string)
    requires before + piece <= word && piece != "" && piece[0] == '\n'
    ensures '\n' in word
  {
    assert word[|before|] == (before + piece)[|before|];
  }

  lemma {:induction false} QuoteInside(t: string, tail: string, cur: Current)
    requires cur.InWord?
    ensures Misread(LexLine("'" + (t + "'\n" + tail), cur), |cur.text| + |t| + 1, tail)
    decreases |t|
  {
    var k := IndexOf(t, '\'');
    var next := cur.Quote(t[..k]);
    if k == |t| {
      assert t[..k] == t;
      assert "'" + (t + "'\n" + tail) == "'" + t + "'" + ("\n" + tail);
      LexQuoted(t, "\n" + tail, cur);
      LexNewline(tail, next);
    } else {
      var rest := t[k + 1..];
      var after := rest + "'\n" + tail;
      assert "'" + (t + "'\n" + tail) == "'" + t[..k] + "'" + after;
      LexQuoted(t[..k], after, cur);
      LexOutsideQuotes(rest, tail, next);
    }
  }

  /** A path with a quote is not read as itself, unless over several lines. */
  lemma QuotedMisread(path: string, tail: string)
    requires '\'' in path
    ensures var line := LexLine("'" + path + "'\n" + tail, NoWord);
            line.Some? ==>
              && line.value.tokens != [] && line.value.tokens[0].Word?
              && (line.value.tokens[0].text == path ==> '\n' in path && |line.value.rest| < |tail|)
  {
    var k := IndexOf(path, '\'');
    var first, r := path[..k], path[k + 1..];
    assert path == first + "'" + r;
    assert "'" + path + "'\n" + tail == "'" + first + "'" + (r + "'\n" + tail);
    LexQuoted(first, r + "'\n" + tail, NoWord);
    LexOutsideQuotes(r, tail, InWord("" + first, true));
  }

  // ---- Lines ----

  /** A path printed at the end of a line is read as itself if and only if it has no quote. */
  lemma QuotedLastIff(path: string, tail: string)
    ensures LexLine("'" + path + "'\n" + tail, NoWord) == Some(Line([Word(path, true)], tail)) <==> '\'' !in path
  {
    if '\'' in path {
      QuotedMisread(path, tail);
    } else {
      LexQuotedLast(path, tail);
    }
  }

  lemma PrependIff(before: seq<Token>, line: Option<Line>, tokens: seq<Token>, rest: string)
    ensures Prepend(before, line) == Some(Line(before + tokens, rest)) <==> line == Some(Line(tokens, rest))
  {
    if line.Some? && before + line.value.tokens == before + tokens {
      assert line.value.tokens == (before + line.value.tokens)[|before|..];
      assert tokens == (before + tokens)[|before|..];
    }
  }

  lemma ThreeWordsIff(a: string, b: string, c: string, tail: string)
    requires a != "" && !NeedsQuoting(a) && b != "" && !NeedsQuoting(b)
    ensures LexLine(a + " " + b + " '" + c + "'\n" + tail, NoWord)
            == Some(Line([Word(a, false), Word(b, false)] + [Word(c, true)], tail))
            <==> '\'' !in c
  {
    var target := "'" + c + "'\n" + tail;
    assert a + " " + b + " '" + c + "'\n" + tail == a + " " + b + " " + target;
    LexTwoWords(a, b, target);
    QuotedLastIff(c, tail);
    PrependIff([Word(a, false), Word(b, false)], LexLine(target, NoWord), [Word(c, true)], tail);
  }

  lemma CatTarget(wf: WriteFile, d: string, tail: string)
    requires '\'' !in d
    ensures var op := if wf.append then ">>" else ">";
            LexLine(CatText(wf, d) + tail, NoWord)
            == Prepend(HereTokens("cat", d, op), LexLine("'" + wf.path + "'\n" + tail, NoWord))
  {
    CatIsPlain();
    CatWords(wf, d, tail);
    LexHereTarget("cat", d, if wf.append then ">>" else ">", wf.path, tail);
  }

  /**
   The line that opens the here-document is read as that command, the text after
   it being the rest, if and only if the path has no quote, whatever follows.
   */
  lemma CatLineIff(wf: WriteFile, d: string, tail: string)
    requires '\'' !in d
    ensures var op := if wf.append then ">>" else ">";
            LexLine(CatText(wf, d) + tail, NoWord)
            == Some(Line(HereTokens("cat", d, op) + [Word(wf.path, true)], tail))
            <==> '\'' !in wf.path
  {
    var op := if wf.append then ">>" else ">";
    CatTarget(wf, d, tail);
    QuotedLastIff(wf.path, tail);
    PrependIff(HereTokens("cat", d, op), LexLine("'" + wf.path + "'\n" + tail, NoWord), [Word(wf.path, true)], tail);
  }

  /** So are the lines that make the directory and set the permissions. */
  lemma MkdirLineIff(dir: string, tail: string)
    ensures LexLine(MkdirLine(dir) + tail, NoWord)
            == Some(Line([Word("mkdir", false), Word("-p", false)] + [Word(dir, true)], tail))
            <==> '\'' !in dir
  {
    MkdirIsPlain();
    MkdirWords(dir, tail);
    ThreeWordsIff("mkdir", "-p", dir, tail);
  }

  lemma ChmodLineIff(wf: WriteFile, tail: string)
    requires wf.permissions != "" && !NeedsQuoting(wf.permissions)
    ensures LexLine(ChmodLine(wf)[1..] + "\n" + tail, NoWord)
            == Some(Line([Word("chmod", false), Word(wf.permissions, false)] + [Word(wf.path, true)], tail))
            <==> '\'' !in wf.path
  {
    ChmodIsPlain();
    ChmodWords(wf, tail);
    ThreeWordsIff("chmod", wf.permissions, wf.path, tail);
  }

  // ---- Entries ----

  /** A misread path at the end of the line that opens the here-document. */
  lemma CatMisread(wf: WriteFile, d: string, tail: string, rest: Option<seq<Command>>)
    requires '\'' in wf.path && '\n' !in wf.path && '\'' !in d
    ensures ReadScript(CatText(wf, d) + tail) == Followed(Commands(wf, ""), rest) ==> rest.None?
  {
    var op := if wf.append then ">>" else ">";
    var before, read := HereTokens("cat", d, op), LexLine("'" + wf.path + "'\n" + tail, NoWord);
    var s := CatText(wf, d) + tail;
    CatTarget(wf, d, tail);
    QuotedMisread(wf.path, tail);
    if read.Some? && rest.Some? {
      var tokens := read.value.tokens;
      assert tokens == [tokens[0]] + tokens[1..];
      CatIsPlain();
      ParseHereCommand("cat", d, op, tokens[0], tokens[1..]);
      var command := ParseCommand(before + tokens);
      if command.Some? && ReadScript(s).Some? {
        FirstCommand(s, Line(before + tokens, read.value.rest), command.value);
        assert (Commands(wf, "") + rest.value)[0] == Commands(wf, "")[0];
        assert Commands(wf, "")[0].output == Some(Redirect(wf.append, wf.path));
      }
    }
  }

  /** The first command of a script is the one its first line starts. */
  lemma FirstCommand(s: string, line: Line, command: Pending)
    requires s != "" && LexLine(s, NoWord) == Some(line) && line.tokens != []
    requires ParseCommand(line.tokens) == Some(command)
    ensures ReadScript(s).Some? ==>
              && ReadScript(s).value != []
              && ReadScript(s).value[0].words == command.words
              && ReadScript(s).value[0].output == command.output
  {}

  /** A misread third word of a line. */
  lemma ThreeWordsMisread(a: string, b: string, c: string, tail: string, cs: seq<Command>)
    requires a != "" && !NeedsQuoting(a) && b != "" && !NeedsQuoting(b) && IsCommandName(a)
    requires '\'' in c && '\n' !in c
    requires cs != [] && cs[0].words == [a, b, c]
    ensures ReadScript(a + " " + b + " '" + c + "'\n" + tail) != Some(cs)
  {
    var before, target := [Word(a, false), Word(b, false)], "'" + c + "'\n" + tail;
    var s := a + " " + b + " " + target;
    assert a + " " + b + " '" + c + "'\n" + tail == s;
    LexTwoWords(a, b, target);
    QuotedMisread(c, tail);
    var read := LexLine(target, NoWord);
    if read.Some? {
      var tokens := read.value.tokens;
      ParseThreeWords(a, b, tokens);
      var command := ParseCommand(before + tokens);
      if command.Some? && ReadScript(s).Some? {
        FirstCommand(s, Line(before + tokens, read.value.rest), command.value);
      }
    }
  }

  lemma MkdirMisread(dir: string, tail: string, cs: seq<Command>)
    requires '\'' in dir && '\n' !in dir
    requires cs != [] && cs[0].words == ["mkdir", "-p", dir]
    ensures ReadScript(MkdirLine(dir) + tail) != Some(cs)
  {
    MkdirIsPlain();
    MkdirWords(dir, tail);
    ThreeWordsMisread("mkdir", "-p", dir, tail, cs);
  }

  lemma ParseThreeWords(a: string, b: string, tokens: seq<Token>)
    requires IsCommandName(a) && tokens != [] && tokens[0].Word?
    ensures var command := ParseCommand([Word(a, false), Word(b, false)] + tokens);
            command.Some? ==> |command.value.words| >= 3 && command.value.words[2] == tokens[0].text
  {
    var all := [Word(a, false), Word(b, false)] + tokens;
    assert all[1..] == [Word(b, false)] + tokens && all[1..][1..] == tokens;
    assert ParseSimple(tokens, true).Some? ==>
        |ParseSimple(tokens, true).value.words| >= 1 && ParseSimple(tokens, true).value.words[0] == tokens[0].text;
    assert ParseSimple(all[1..], true).Some? ==>
        |ParseSimple(all[1..], true).value.words| >= 2 && ParseSimple(all[1..], true).value.words[1] == tokens[0].text;
  }

  /**
   With a path of one line and a script that can be read behind it, a printed
   entry is read back as commands that write it if and only if the path has no
   quote.
   */
  lemma EntryReadsBackIff(wf: WriteFile, text: string, tail: string)
    requires Rendered(wf, text) && '\n' !in wf.path && !NeedsQuoting(wf.permissions)
    requires ReadScript(tail).Some?
    ensures (exists cs :: Writes(cs, wf) && ReadScript(text + "\n" + tail) == Followed(cs, ReadScript(tail)))
            <==> '\'' !in wf.path
  {
    WritesIff(EntryCommands(wf), wf);
    EntryThenIff(wf, text, tail, ReadScript(tail));
    if cs :| Writes(cs, wf) && ReadScript(text + "\n" + tail) == Followed(cs, ReadScript(tail)) {
      WritesIff(cs, wf);
    }
  }

  lemma EntryMisread(wf: WriteFile, text: string, tail: string, rest: Option<seq<Command>>)
    requires Rendered(wf, text) && '\n' !in wf.path && '\'' in wf.path
    requires rest.Some?
    ensures ReadScript(text + "\n" + tail) != Followed(EntryCommands(wf), rest)
  {
    var dir := LastSlash(wf.path).value;
    var d :| IsPicked(wf.content, d) && text == FileText(wf, dir, d);
    PickedShape(wf.content, d);
    var after := Terminated(wf.content) + d + ChmodText(wf) + "\n" + tail;
    EntrySplit(wf, dir, d, tail, after);
    CatMisread(wf, d, after, rest);
    DirHasNoQuote(wf.path, '\n');
    WithMkdirMisread(wf, dir, CatText(wf, d) + after, rest);
  }

  lemma WithMkdirMisread(wf: WriteFile, dir: string, cat: string, rest: Option<seq<Command>>)
    requires '\n' !in dir && rest.Some?
    requires ReadScript(cat) != Followed(Commands(wf, ""), rest)
    ensures ReadScript(MkdirText(dir) + cat) != Followed(Commands(wf, dir), rest)
  {
    if dir == "" {
      assert MkdirText(dir) + cat == cat;
    } else {
      var mkdir := Command([], ["mkdir", "-p", dir], None, None);
      assert Commands(wf, dir) == [mkdir] + Commands(wf, "");
      if '\'' in dir {
        var cs := Commands(wf, dir) + rest.value;
        assert cs[0] == mkdir;
        MkdirMisread(dir, cat, cs);
      } else {
        ReadMkdirLine(dir, cat);
        FollowedTwice([mkdir], Commands(wf, ""), rest);
        FollowedCancels([mkdir], ReadScript(cat), Followed(Commands(wf, ""), rest));
      }
    }
  }

  ghost predicate AllRendered(wfs: seq<WriteFile>, texts: seq<string>) {
    && |texts| == |wfs|
    && (wfs != [] ==>
          && Rendered(wfs[0], texts[0]) && '\n' !in wfs[0].path && !NeedsQuoting(wfs[0].permissions)
          && AllRendered(wfs[1..], texts[1..]))
  }

  predicate NoQuotes(wfs: seq<WriteFile>) { forall wf :: wf in wfs ==> '\'' !in wf.path }

  lemma NoQuotesHead(wfs: seq<WriteFile>)
    requires wfs != []
    ensures NoQuotes(wfs) <==> '\'' !in wfs[0].path && NoQuotes(wfs[1..])
  {
    assert wfs[0] in wfs;
    assert forall wf :: wf in wfs <==> wf == wfs[0] || wf in wfs[1..];
  }

  /** A section of entries is read back if and only if none of its paths has a quote. */
  lemma EntriesReadBackIff(wfs: seq<WriteFile>, texts: seq<string>, tail: string)
    requires AllRendered(wfs, texts) && ReadScript(tail).Some?
    ensures (exists cs :: WriteAll(cs, wfs) && ReadScript(Lines(texts) + tail) == Followed(cs, ReadScript(tail)))
            <==> NoQuotes(wfs)
  {
    AllHaveSlash(wfs, texts);
    SectionReadsIff(wfs, texts, tail);
    WriteAllIff(AllCommands(wfs), wfs);
    if cs :| WriteAll(cs, wfs) && ReadScript(Lines(texts) + tail) == Followed(cs, ReadScript(tail)) {
      WriteAllIff(cs, wfs);
    }
  }

  lemma {:induction false} AllHaveSlash(wfs: seq<WriteFile>, texts: seq<string>)
    requires AllRendered(wfs, texts)
    ensures forall wf :: wf in wfs ==> '/' in wf.path
  {
    if wfs != [] {
      AllHaveSlash(wfs[1..], texts[1..]);
      assert forall wf :: wf in wfs <==> wf == wfs[0] || wf in wfs[1..];
    }
  }

  lemma {:induction false} SectionReadsIff(wfs: seq<WriteFile>, texts: seq<string>, tail: string)
    requires AllRendered(wfs, texts) && ReadScript(tail).Some?
    ensures ReadScript(Lines(texts) + tail) == Followed(AllCommands(wfs), ReadScript(tail))
            <==> NoQuotes(wfs)
  {
    if wfs == [] {
      assert Lines(texts) + tail == tail;
      assert [] + ReadScript(tail).value == ReadScript(tail).value;
    } else {
      var after := Lines(texts[1..]) + tail;
      var meant := Followed(AllCommands(wfs[1..]), ReadScript(tail));
      FirstOfSection(wfs, texts, tail, ReadScript(tail));
      NoQuotesHead(wfs);
      SectionReadsIff(wfs[1..], texts[1..], tail);
      EntryThenIff(wfs[0], texts[0], after, meant);
    }
  }

  /** One entry and what follows it. */
  lemma EntryThenIff(wf: WriteFile, text: string, after: string, meant: Option<seq<Command>>)
    requires Rendered(wf, text) && '\n' !in wf.path && !NeedsQuoting(wf.permissions) && meant.Some?
    ensures ReadScript(text + "\n" + after) == Followed(EntryCommands(wf), meant)
            <==> '\'' !in wf.path && ReadScript(after) == meant
  {
    if '\'' in wf.path {
      EntryMisread(wf, text, after, meant);
    } else {
      EntryReadsAsCommands(wf, text, after);
      FollowedCancels(EntryCommands(wf), ReadScript(after), meant);
    }
  }

  lemma FollowedCancels(cs: seq<Command>, a: Option<seq<Command>>, b: Option<seq<Command>>)
    ensures Followed(cs, a) == Followed(cs, b) <==> a == b
  {
    if a.Some? && b.Some? && cs + a.value == cs + b.value {
      assert a.value == (cs + a.value)[|cs|..] && b.value == (cs + b.value)[|cs|..];
    }
  }

  // ---- A quote as a generated script has it ----

  /** A line that prints a message, as the one every generated script ends with. */
  function EchoLine(message: string): string { "\necho '" + message + "'\n" }

  const MESSAGE := "Node bootstrap script completed."

  /** Words of plain characters. */
  predicate IsMessage(w: string) { forall c :: c in w ==> IsPlain(c) || c == ' ' }

  lemma ReadEchoLine(message: string)
    requires IsMessage(message)
    ensures ReadScript(EchoLine(message)) == Some([Command([], ["echo", message], None, None)])
  {
    var line := "echo" + " " + ("'" + message + "'\n" + "");
    EchoWords(message);
    LexNewline(line, NoWord);
    EchoIsPlain();
    ReadTwoWords("echo", message);
  }

  lemma EchoWords(message: string)
    ensures EchoLine(message) == "\n" + ("echo" + " " + ("'" + message + "'\n" + ""))
  {
    assert "\necho '" == "\n" + ("echo" + " " + "'");
  }

  lemma EchoIsPlain()
    ensures !NeedsQuoting("echo") && IsCommandName("echo")
  {
    CommandName("echo");
  }

  lemma ReadTwoWords(a: string, b: string)
    requires a != "" && !NeedsQuoting(a) && IsCommandName(a) && '\'' !in b
    ensures ReadScript(a + " " + ("'" + b + "'\n" + "")) == Some([Command([], [a, b], None, None)])
  {
    var tokens := [Word(a, false)] + [Word(b, true)];
    LexKeyword(a, "'" + b + "'\n" + "");
    LexQuotedLast(b, "");
    ParseWords(tokens);
    assert tokens[1..] == [Word(b, true)];
    assert Texts(tokens[1..]) == [b] + Texts(tokens[1..][1..]);
    assert Texts(tokens) == [a] + ([b] + []) == [a, b];
    var command := ParseSimple(tokens, false).value;
    assert command.assignments + command.words == command.words;
    var read := Command([], [a, b], None, None);
    assert [read] + [] == [read];
  }

  /**
   A script that ends with such a line can be read without the entry, but with it
   not at all: the quote in the path pairs off with those of the last line.
   */
  lemma QuoteInPathLosesScript(wf: WriteFile, text: string, first: string, last: string, message: string)
    requires Rendered(wf, text) && wf.path == first + "'" + last && wf.permissions == ""
    requires '\'' !in first && '\'' !in wf.content && '/' !in last && !NeedsQuoting(last)
    requires IsMessage(message)
    ensures ReadScript(EchoLine(message)).Some?
    ensures ReadScript(text + "\n" + EchoLine(message)) == None
  {
    ReadEchoLine(message);
    var dir := LastSlash(wf.path).value;
    var d :| IsPicked(wf.content, d) && text == FileText(wf, dir, d);
    PickedShape(wf.content, d);
    var after := Terminated(wf.content) + d + ChmodText(wf) + "\n" + EchoLine(message);
    EntrySplit(wf, dir, d, EchoLine(message), after);
    CatUnclosed(wf, d, first, last, message, after);
    DirBeforeQuote(wf.path, first, last);
    WithMkdirUnreadable(dir, CatText(wf, d) + after);
  }

  /** The message generated scripts have. */
  lemma MessageIsPlain()
    ensures IsMessage(MESSAGE)
  {}

  lemma WithMkdirUnreadable(dir: string, cat: string)
    requires '\'' !in dir && ReadScript(cat) == None
    ensures ReadScript(MkdirText(dir) + cat) == None
  {
    if dir == "" {
      assert MkdirText(dir) + cat == cat;
    } else {
      ReadMkdirLine(dir, cat);
    }
  }

  lemma DirBeforeQuote(path: string, first: string, last: string)
    requires path == first + "'" + last && '/' in path && '/' !in last && '\'' !in first
    ensures '\'' !in LastSlash(path).value
  {
    var n := |LastSlash(path).value|;
    forall i | |first| < i < |path| ensures path[i] != '/' {
      assert path[i] == last[i - |first| - 1];
    }
    assert path[..n] == first[..n];
  }

  lemma CatUnclosed(wf: WriteFile, d: string, first: string, last: string, message: string, after: string)
    requires wf.path == first + "'" + last && '\'' !in first && !NeedsQuoting(last)
    requires '\'' !in wf.content && '\'' !in d && wf.permissions == "" && IsMessage(message)
    requires after == Terminated(wf.content) + d + ChmodText(wf) + "\n" + EchoLine(message)
    ensures ReadScript(CatText(wf, d) + after) == None
  {
    var body := Terminated(wf.content) + d + "\n" + "\necho ";
    PathSplit(wf, d, first, last, body, message, after);
    CatTarget(wf, d, after);
    PathUnclosed(first, last, body, message);
    assert CatText(wf, d) + after != "";
  }

  lemma PathSplit(wf: WriteFile, d: string, first: string, last: string, body: string, message: string, after: string)
    requires wf.path == first + "'" + last && wf.permissions == ""
    requires after == Terminated(wf.content) + d + ChmodText(wf) + "\n" + EchoLine(message)
    requires body == Terminated(wf.content) + d + "\n" + "\necho "
    ensures "'" + wf.path + "'\n" + after
            == "'" + first + "'" + (last + ("'" + ("\n" + body) + "'" + (message + "'\n")))
  {
    assert after == body + ("'" + (message + "'\n"));
  }

  lemma PathUnclosed(first: string, last: string, body: string, message: string)
    requires '\'' !in first && !NeedsQuoting(last) && '\'' !in body && IsMessage(message)
    ensures LexLine("'" + first + "'" + (last + ("'" + ("\n" + body) + "'" + (message + "'\n"))), NoWord) == None
  {
    var close := message + "'\n";
    var ending := "'" + ("\n" + body) + "'" + close;
    var word := InWord("" + first, true);
    LexQuoted(first, last + ending, NoWord);
    LexWord(last, ending, word);
    LexQuoted("\n" + body, close, InWord(word.text + last, true));
    LexUnclosed(message, InWord(word.text + last + ("\n" + body), true));
  }

  lemma LexWord(w: string, rest: string, cur: Current)
    requires cur.InWord? && !NeedsQuoting(w)
    ensures LexLine(w + rest, cur) == LexLine(rest, InWord(cur.text + w, cur.quoted))
  {
    if w == "" {
      assert w + rest == rest && cur.text + w == cur.text;
    } else {
      OrdinaryWord(w);
      LexPlain(w, rest, cur);
    }
  }

  /** Plain words and a quote that nothing closes. */
  lemma {:induction false} LexUnclosed(w: string, cur: Current)
    requires IsMessage(w)
    ensures LexLine(w + "'\n", cur) == None
    decreases |w|
  {
    var s := w + "'\n";
    if w == "" {
      assert s[1..] == "\n" && IndexOf("\n", '\'') == 1;
    } else {
      assert s[1..] == w[1..] + "'\n";
      if w[0] == ' ' {
        LexUnclosed(w[1..], NoWord);
      } else {
        PlainIsOrdinary(w[0]);
        LexUnclosed(w[1..], InWord(cur.Text() + [w[0]], cur.Quoted()));
      }
    }
  }
}
