/** The remote command line of antigravity-vps-cli/src/main.rs, read back by a shell.

    The reader follows POSIX.1-2017, Shell Command Language, sections 2.2.1 (backslash),
    2.2.2 (single quotes), 2.3 (token recognition), 2.4 (reserved words), 2.6.7 (quote removal) and
    2.10.2 (assignment words). */
module ShellQuoting {
  import opened Wrappers

  // ---------- Writing ----------

  /** The program tests UTF-8 bytes; bytes of non-ASCII characters never pass, so testing
      characters is the same. */
  predicate IsBareSafe(c: char) {
    || 'a' <= c <= 'z' || 'A' <= c <= 'Z' || '0' <= c <= '9'
    || c in {'-', '_', '.', '/', ':', '=', ','}
  }

  predicate AllBareSafe(s: string) {
    forall i | 0 <= i < |s| :: IsBareSafe(s[i])
  }

  /** Every single quote becomes: close, escaped quote, reopen. */
  function QuoteBody(s: string): string {
    if s == "" then ""
    else (if s[0] == '\'' then "'\\''" else [s[0]]) + QuoteBody(s[1..])
  }

  function ShellEscape(s: string): string {
    if s == "" then "''"
    else if AllBareSafe(s) then s
    else "'" + QuoteBody(s) + "'"
  }

  /** The arguments after the first, each preceded by the separator. */
  function JoinTail(args: seq<string>): string {
    if args == [] then "" else " " + ShellEscape(args[0]) + JoinTail(args[1..])
  }

  /** `map(shell_escape)` then `join(" ")`. */
  function CommandLine(args: seq<string>): string {
    if args == [] then "" else ShellEscape(args[0]) + JoinTail(args[1..])
  }

  // ---------- Reading ----------

  datatype ShellError =
    | UnterminatedQuote
    | DanglingBackslash
    | SpecialCharacter(c: char)   // an operator, an expansion, a double quote, a comment or a newline

  datatype Mode = Plain | SingleQuoted | Escaped

  /** Section 2.2: the characters that mean something unquoted, quotes and blanks aside. */
  predicate IsSpecial(c: char) {
    c in {'|', '&', ';', '<', '>', '(', ')', '$', '`', '"', '\n', '*', '?', '[', '#', '~', '%'}
  }

  predicate IsBlank(c: char) {
    c == ' ' || c == '\t'
  }

  /** A word of the line: as written, and after quote removal. */
  datatype Word = Word(raw: string, text: string)

  function Emit(word: Option<Word>, r: Result<seq<Word>, ShellError>): Result<seq<Word>, ShellError> {
    match r
    case Success(ws) => Success(if word.Some? then [word.value] + ws else ws)
    case Failure(e) => Failure(e)
  }

  /** The word so far, with a character that quotes, and with one that stands for itself. */
  function Quoting(word: Option<Word>, c: char): Option<Word> {
    var w := word.GetOr(Word("", ""));
    Some(Word(w.raw + [c], w.text))
  }

  function Standing(word: Option<Word>, c: char): Option<Word> {
    var w := word.GetOr(Word("", ""));
    Some(Word(w.raw + [c], w.text + [c]))
  }

  /** The words of `s`; `word` is the one being read, if one has started. An escaped newline vanishes. */
  function Words(s: string, mode: Mode, word: Option<Word>): Result<seq<Word>, ShellError>
    decreases |s|
  {
    if s == "" then
      match mode
      case Plain => Emit(word, Success([]))
      case SingleQuoted => Failure(UnterminatedQuote)
      case Escaped => Failure(DanglingBackslash)
    else
      var c, rest := s[0], s[1..];
      match mode
      case Plain =>
        if c == '\'' then Words(rest, SingleQuoted, Quoting(word, c))
        else if c == '\\' then Words(rest, Escaped, word)
        else if IsBlank(c) then Emit(word, Words(rest, Plain, None))
        else if IsSpecial(c) then Failure(SpecialCharacter(c))
        else Words(rest, Plain, Standing(word, c))
      case SingleQuoted =>
        if c == '\'' then Words(rest, Plain, Quoting(word, c))
        else Words(rest, SingleQuoted, Standing(word, c))
      case Escaped =>
        if c == '\n' then Words(rest, Plain, word)
        else Words(rest, Plain, Standing(Quoting(word, '\\'), c))
  }

  function Texts(words: seq<Word>): seq<string> {
    if words == [] then [] else [words[0].text] + Texts(words[1..])
  }

  /** The fields of a line after quote removal. */
  function ShellFields(s: string): Result<seq<string>, ShellError> {
    match Words(s, Plain, None)
    case Success(ws) => Success(Texts(ws))
    case Failure(e) => Failure(e)
  }

  // ---------- Reading what was written ----------

  /** `word` with a run of characters appended, as written and as text. */
  function Grown(word: Option<Word>, raw: string, text: string): Option<Word> {
    var w := word.GetOr(Word("", ""));
    Some(Word(w.raw + raw, w.text + text))
  }

  lemma GrownTwice(word: Option<Word>, raw: string, text: string, raw': string, text': string)
    ensures Grown(Grown(word, raw, text), raw', text') == Grown(word, raw + raw', text + text')
  {
    var w := word.GetOr(Word("", ""));
    assert w.raw + raw + raw' == w.raw + (raw + raw');
    assert w.text + text + text' == w.text + (text + text');
  }

  lemma OneGrows(word: Option<Word>, c: char)
    ensures Quoting(word, c) == Grown(word, [c], "") && Standing(word, c) == Grown(word, [c], [c])
  {
    var w := word.GetOr(Word("", ""));
    assert w.text + "" == w.text;
  }

  lemma {:induction false} BareRun(s: string, rest: string, word: Option<Word>)
    requires AllBareSafe(s) && s != ""
    ensures Words(s + rest, Plain, word) == Words(rest, Plain, Grown(word, s, s))
  {
    var next := Standing(word, s[0]);
    OneGrows(word, s[0]);
    assert (s + rest)[1..] == s[1..] + rest;
    assert Words(s + rest, Plain, word) == Words(s[1..] + rest, Plain, next);
    if |s| == 1 {
      assert s[1..] + rest == rest && s == [s[0]];
    } else {
      BareRun(s[1..], rest, next);
      GrownTwice(word, [s[0]], [s[0]], s[1..], s[1..]);
      assert [s[0]] + s[1..] == s;
    }
  }

  /** The four characters that stand for one quote take the reader out, past it, and back in. */
  lemma EscapedQuote(rest: string, word: Option<Word>)
    ensures Words("'\\''" + rest, SingleQuoted, word) == Words(rest, SingleQuoted, Grown(word, "'\\''", "'"))
  {
    var s := "'\\''" + rest;
    assert s[1..] == "\\''" + rest;
    assert s[1..][1..] == "''" + rest;
    assert s[1..][1..][1..] == "'" + rest;
    assert s[1..][1..][1..][1..] == rest;
    var w1 := Quoting(word, '\'');
    var w2 := Standing(Quoting(w1, '\\'), '\'');
    var w3 := Quoting(w2, '\'');
    assert Words(s, SingleQuoted, word) == Words(s[1..], Plain, w1);
    assert Words(s[1..], Plain, w1) == Words(s[1..][1..], Escaped, w1);
    assert Words(s[1..][1..], Escaped, w1) == Words(s[1..][1..][1..], Plain, w2);
    assert Words(s[1..][1..][1..], Plain, w2) == Words(rest, SingleQuoted, w3);
    var w := word.GetOr(Word("", ""));
    assert w3.value.raw == w.raw + "'\\''" && w3.value.text == w.text + "'";
  }

  lemma {:induction false} QuotedRun(s: string, rest: string, word: Option<Word>)
    ensures Words(QuoteBody(s) + "'" + rest, SingleQuoted, word) ==
      Words(rest, Plain, Grown(word, QuoteBody(s) + "'", s))
  {
    var tail := "'" + rest;
    assert QuoteBody(s) + "'" + rest == QuoteBody(s) + tail;
    if s == "" {
      assert QuoteBody(s) + tail == tail && tail[1..] == rest;
      OneGrows(word, '\'');
    } else {
      var body := QuoteBody(s[1..]);
      var more := body + tail;
      assert more == body + "'" + rest;
      var first := if s[0] == '\'' then "'\\''" else [s[0]];
      assert QuoteBody(s) + tail == first + more && QuoteBody(s) + "'" == first + (body + "'");
      if s[0] == '\'' {
        EscapedQuote(more, word);
      } else {
        assert ([s[0]] + more)[1..] == more;
        OneGrows(word, s[0]);
      }
      QuotedRun(s[1..], rest, Grown(word, first, [s[0]]));
      GrownTwice(word, first, [s[0]], body + "'", s[1..]);
      assert [s[0]] + s[1..] == s;
    }
  }

  /** One escaped argument is read as one word, which says the argument itself. */
  lemma EscapedArgument(s: string, rest: string)
    ensures Words(ShellEscape(s) + rest, Plain, None) == Words(rest, Plain, Some(Word(ShellEscape(s), s)))
  {
    if s == "" {
      assert ("''" + rest)[1..] == "'" + rest && ("'" + rest)[1..] == rest;
      assert "" + ['\''] + ['\''] == "''";
    } else if AllBareSafe(s) {
      BareRun(s, rest, None);
      assert "" + s == s;
    } else {
      QuotedArgument(s, rest);
    }
  }

  lemma QuotedArgument(s: string, rest: string)
    requires s != "" && !AllBareSafe(s)
    ensures Words(ShellEscape(s) + rest, Plain, None) == Words(rest, Plain, Some(Word(ShellEscape(s), s)))
  {
    var start: Option<Word> := None;
    var quoted := QuoteBody(s) + "'";
    assert ShellEscape(s) == "'" + quoted;
    OpensQuote(quoted + rest, start);
    hide *;
    assert "'" + quoted + rest == "'" + (quoted + rest);
    OneGrows(start, '\'');
    QuotedRun(s, rest, Quoting(start, '\''));
    GrownTwice(start, "'", "", quoted, s);
    GrownFromNone("'" + quoted, s);
    assert "" + s == s;
  }

  lemma OpensQuote(body: string, word: Option<Word>)
    ensures Words("'" + body, Plain, word) == Words(body, SingleQuoted, Quoting(word, '\''))
  {
    assert ("'" + body)[1..] == body;
  }

  lemma GrownFromNone(raw: string, text: string)
    ensures Grown(None, raw, text) == Some(Word(raw, text))
  {
    assert "" + raw == raw && "" + text == text;
  }

  /** The words of a command line. */
  function Written(args: seq<string>): seq<Word> {
    if args == [] then [] else [Word(ShellEscape(args[0]), args[0])] + Written(args[1..])
  }

  lemma {:induction false} ReadTail(args: seq<string>, word: Word)
    ensures Words(JoinTail(args), Plain, Some(word)) == Success([word] + Written(args))
  {
    hide ShellEscape;
    if args != [] {
      var rest := JoinTail(args[1..]);
      var line := ShellEscape(args[0]) + rest;
      var next := Word(ShellEscape(args[0]), args[0]);
      assert JoinTail(args) == " " + line && (" " + line)[1..] == line;
      EscapedArgument(args[0], rest);
      BlankEnds(line, word);
      ReadTail(args[1..], next);
      assert [next] + Written(args[1..]) == Written(args);
    }
  }

  lemma BlankEnds(line: string, word: Word)
    ensures Words(" " + line, Plain, Some(word)) == Emit(Some(word), Words(line, Plain, None))
  {
    assert (" " + line)[1..] == line;
  }

  lemma CommandLineWords(args: seq<string>)
    ensures Words(CommandLine(args), Plain, None) == Success(Written(args))
  {
    if args != [] {
      EscapedArgument(args[0], JoinTail(args[1..]));
      ReadTail(args[1..], Word(ShellEscape(args[0]), args[0]));
    }
  }

  lemma {:induction false} WrittenTexts(args: seq<string>)
    ensures Texts(Written(args)) == args
  {
    if args != [] {
      WrittenTexts(args[1..]);
      assert Written(args)[1..] == Written(args[1..]) && [args[0]] + args[1..] == args;
    }
  }

  /** Splitting and quote removal give back exactly the arguments that were passed, whatever they
      contain. */
  lemma CommandLineRoundTrip(args: seq<string>)
    ensures ShellFields(CommandLine(args)) == Success(args)
  {
    CommandLineWords(args);
    WrittenTexts(args);
  }

  /** So no two argument vectors share a command line. */
  lemma CommandLineInjective(args: seq<string>, args': seq<string>)
    requires CommandLine(args) == CommandLine(args')
    ensures args == args'
  {
    CommandLineRoundTrip(args);
    CommandLineRoundTrip(args');
  }

  // ---------- The command that runs ----------

  predicate IsNameChar(c: char) {
    'a' <= c <= 'z' || 'A' <= c <= 'Z' || '0' <= c <= '9' || c == '_'
  }

  /** Section 2.10.2, rule 7: an unquoted name and `=` at the front make an assignment, not a command. */
  predicate IsAssignmentWord(raw: string) {
    exists i | 0 < i < |raw| ::
      raw[i] == '=' && !('0' <= raw[0] <= '9') && forall j | 0 <= j < i :: IsNameChar(raw[j])
  }

  /** Section 2.4: recognised unquoted, as the first word of a command. */
  const RESERVED_WORDS: set<string> := {
    "!", "{", "}", "case", "do", "done", "elif", "else", "esac", "fi", "for", "if", "in", "then", "until", "while"}

  /** A simple command has assignments and then its arguments; a reserved word starts something else. */
  datatype Command = Simple(assignments: seq<string>, argv: seq<string>) | Compound(word: string)

  function Assignments(words: seq<Word>): nat {
    if words != [] && IsAssignmentWord(words[0].raw) then 1 + Assignments(words[1..]) else 0
  }

  lemma {:induction false} AssignmentsBounded(words: seq<Word>)
    ensures Assignments(words) <= |words|
  {
    if words != [] {
      AssignmentsBounded(words[1..]);
    }
  }

  function CommandOf(words: seq<Word>): Command {
    if words != [] && words[0].raw in RESERVED_WORDS then Compound(words[0].raw)
    else
      AssignmentsBounded(words);
      var n := Assignments(words);
      Simple(Texts(words[..n]), Texts(words[n..]))
  }

  function ShellCommand(s: string): Result<Command, ShellError> {
    match Words(s, Plain, None)
    case Success(ws) => Success(CommandOf(ws))
    case Failure(e) => Failure(e)
  }

  /** Quoting leaves an assignment word bare exactly when it was one without characters that need
      quoting, and never makes one; the same for reserved words. */
  lemma FirstWordStaysBare(s: string)
    ensures IsAssignmentWord(ShellEscape(s)) <==> AllBareSafe(s) && IsAssignmentWord(s)
    ensures ShellEscape(s) in RESERVED_WORDS <==> AllBareSafe(s) && s in RESERVED_WORDS
  {
    if !AllBareSafe(s) || s == "" {
      assert ShellEscape(s)[0] == '\'';
      assert !IsNameChar(ShellEscape(s)[0]);
    }
  }

  /** An argument that the shell takes for something else in command position. */
  predicate Misread(s: string) {
    AllBareSafe(s) && (IsAssignmentWord(s) || s in RESERVED_WORDS)
  }

  lemma {:induction false} TextsLength(words: seq<Word>)
    ensures |Texts(words)| == |words|
  {
    if words != [] {
      TextsLength(words[1..]);
    }
  }

  /** The remote shell runs exactly the arguments that were passed, whatever they contain, unless the
      first is a bare assignment word or a bare reserved word; then it never does. */
  lemma CommandReceived(args: seq<string>)
    ensures ShellCommand(CommandLine(args)).Success?
    ensures ShellCommand(CommandLine(args)).value == Simple([], args) <==> args == [] || !Misread(args[0])
    ensures args != [] && Misread(args[0]) ==>
      var command := ShellCommand(CommandLine(args)).value;
      command == Compound(args[0]) || (command.Simple? && |command.argv| < |args|)
  {
    var words := Written(args);
    CommandLineWords(args);
    WrittenTexts(args);
    AssignmentsBounded(words);
    if args != [] {
      FirstWordStaysBare(args[0]);
      TextsLength(words);
      TextsLength(words[Assignments(words)..]);
    }
    if Assignments(words) == 0 {
      assert words[..0] == [] && words[0..] == words;
    }
  }

  /** One misread argument alone: it sets a variable and runs nothing, or opens a compound command. */
  lemma MisreadAlone(s: string)
    requires Misread(s)
    ensures ShellCommand(CommandLine([s])) == Success(if s in RESERVED_WORDS then Compound(s) else Simple([s], []))
  {
    hide IsAssignmentWord;
    FirstWordStaysBare(s);
    CommandLineWords([s]);
    var w := Word(ShellEscape(s), s);
    assert [s][1..] == [] && Written([s]) == [w] + Written([]) == [w];
    assert [w][1..] == [] && [w][..1] == [w];
    assert Texts([w]) == [s] + Texts([]) == [s] && Texts([]) == [];
    if s !in RESERVED_WORDS {
      assert Assignments([w]) == 1 + Assignments([]) == 1;
      assert CommandOf([w]) == Simple(Texts([w][..1]), Texts([w][1..]));
    }
  }

  /** Both kinds exist. */
  lemma MisreadExamples()
    ensures ShellCommand(CommandLine(["A=b"])) == Success(Simple(["A=b"], []))
    ensures ShellCommand(CommandLine(["if"])) == Success(Compound("if"))
  {
    var s := "A=b";
    assert s[1] == '=' && IsNameChar(s[0]) && |s| == 3;
    assert s !in RESERVED_WORDS && "if" in RESERVED_WORDS;
    hide *;
    assert Misread("A=b") && Misread("if") by {
      Misreads(s);
    }
    MisreadAlone("A=b");
    MisreadAlone("if");
  }

  lemma Misreads(s: string)
    requires s == "A=b"
    ensures Misread(s) && Misread("if")
  {
    assert s[1] == '=' && IsNameChar(s[0]);
  }
}
