/**
The two layers of shell quoting around a command, and the quote removal that undoes them: sections
2.2, 2.3 and 2.5 of the POSIX Shell Command Language, with the two expansions that the submitted line
needs, the last exit status outside quotes and there or in double quotes a variable. Other
expansions are not part of the model; quoted text never has any.
*/
module ShellQuoting {
  import opened Sequences

  // ----- Quoting -----

  predicate IsSafe(c: char) {
    'a' <= c <= 'z' || 'A' <= c <= 'Z' || '0' <= c <= '9' || c in "_@%+=:,./-"
  }

  predicate AllSafe(s: string) { forall i :: 0 <= i < |s| ==> IsSafe(s[i]) }

  /** Every single quote leaves the quoted text, is quoted on its own, and re-enters. */
  function Escape(s: string): string {
    if s == "" then "" else (if s[0] == '\'' then "'\"'\"'" else [s[0]]) + Escape(s[1..])
  }

  function Quote(s: string): string {
    if s == "" then "''"
    else if AllSafe(s) then s
    else "'" + Escape(s) + "'"
  }

  // ----- Commands -----

  datatype UnixCommand = UnixCommand(query: string, sudo: bool, nonInteractive: bool) {
    function NonInteractiveText(): string { "sudo -n -- sh -c " + Quote(query) }

    function Text(): string {
      if !sudo then query else if nonInteractive then NonInteractiveText() else "sudo " + query
    }
  }

  // ----- Quote removal -----

  /** What expansions look at: the exit status of the last command and the variables. */
  datatype Params = Params(status: nat, variables: map<string, string>)

  /** The text of a word with its quotes removed and what follows it, or no word at all. */
  datatype Lexed = Word(text: string, rest: string) | NotQuotedText

  function Prepend(text: string, r: Lexed): Lexed {
    if r.Word? then Word(text + r.text, r.rest) else r
  }

  predicate IsBlank(c: char) { c == ' ' || c == '\t' }
  predicate IsDelimiter(c: char) { IsBlank(c) || c in "\n;&|<>()" }

  /** Characters that begin an expansion, a pattern or a comment when they are not quoted. */
  predicate IsActive(c: char) { c in "$`*?[]~#{}!^" }

  predicate IsNameStart(c: char) { 'a' <= c <= 'z' || 'A' <= c <= 'Z' || c == '_' }
  predicate IsNameChar(c: char) { IsNameStart(c) || '0' <= c <= '9' }

  predicate IsName(s: string) {
    s != "" && IsNameStart(s[0]) && forall i :: 0 <= i < |s| ==> IsNameChar(s[i])
  }

  /** The longest name with which s begins, or nothing. */
  function NameOf(s: string): (r: string)
    ensures r <= s
  {
    if s == "" || !IsNameStart(s[0]) then "" else [s[0]] + NameChars(s[1..])
  }

  function NameChars(s: string): (r: string)
    ensures r <= s
  {
    if s == "" || !IsNameChar(s[0]) then "" else [s[0]] + NameChars(s[1..])
  }

  function ValueOf(p: Params, name: string): string {
    if name in p.variables then p.variables[name] else ""
  }

  /** Outside quotes (section 2.2.1 for the backslash, 2.5.2 for the exit status). */
  function LexUnquoted(p: Params, s: string): (r: Lexed)
    ensures r.Word? ==> |r.rest| <= |s|
    ensures r.Word? && s != "" && !IsDelimiter(s[0]) ==> |r.rest| < |s|
    decreases |s|
  {
    if s == "" || IsDelimiter(s[0]) then Word("", s)
    else if s[0] == '\'' then LexSingle(p, s[1..])
    else if s[0] == '"' then LexDouble(p, s[1..])
    else if s[0] == '\\' then
      if |s| == 1 then NotQuotedText
      else if s[1] == '\n' then LexUnquoted(p, s[2..])
      else Prepend([s[1]], LexUnquoted(p, s[2..]))
    else if s[0] == '$' && |s| > 1 && s[1] == '?' then Prepend(Digits(p.status), LexUnquoted(p, s[2..]))
    else if IsActive(s[0]) then NotQuotedText
    else Prepend([s[0]], LexUnquoted(p, s[1..]))
  }

  /** Inside single quotes every character stands for itself (section 2.2.2). */
  function LexSingle(p: Params, s: string): (r: Lexed)
    ensures r.Word? ==> |r.rest| <= |s|
    decreases |s|
  {
    if s == "" then NotQuotedText
    else if s[0] == '\'' then LexUnquoted(p, s[1..])
    else Prepend([s[0]], LexSingle(p, s[1..]))
  }

  /** Inside double quotes (section 2.2.3), with the expansion of a variable (section 2.6.2). */
  function LexDouble(p: Params, s: string): (r: Lexed)
    ensures r.Word? ==> |r.rest| <= |s|
    decreases |s|
  {
    if s == "" || s[0] == '`' then NotQuotedText
    else if s[0] == '$' then
      var name := NameOf(s[1..]);
      if name == "" then NotQuotedText else Prepend(ValueOf(p, name), LexDouble(p, s[1 + |name|..]))
    else if s[0] == '"' then LexUnquoted(p, s[1..])
    else if s[0] == '\\' && |s| > 1 && s[1] in "$`\"\\" then Prepend([s[1]], LexDouble(p, s[2..]))
    else if s[0] == '\\' && |s| > 1 && s[1] == '\n' then LexDouble(p, s[2..])
    else Prepend([s[0]], LexDouble(p, s[1..]))
  }

  datatype Fields = Fields(words: seq<string>, rest: string) | NotSimple

  /** The words of a simple command, up to a newline, a control operator or the end. */
  function Split(p: Params, s: string): Fields
    decreases |s|
  {
    if s == "" then Fields([], s)
    else if IsBlank(s[0]) then Split(p, s[1..])
    else if IsDelimiter(s[0]) then Fields([], s)
    else
      var first := LexUnquoted(p, s);
      if first.NotQuotedText? then NotSimple
      else
        var others := Split(p, first.rest);
        if others.NotSimple? then NotSimple else Fields([first.text] + others.words, others.rest)
  }

  // ----- Quoting and quote removal are inverse -----

  /** Where a word ends: at the end of the text or at a delimiter. */
  predicate EndsWord(rest: string) { rest == "" || IsDelimiter(rest[0]) }

  lemma SafeIsPlain(c: char)
    requires IsSafe(c)
    ensures !IsDelimiter(c) && !IsActive(c) && c != '\'' && c != '"' && c != '\\' && c != '$'
  {
  }

  lemma {:induction false} PlainWord(p: Params, word: string, rest: string)
    requires AllSafe(word) && EndsWord(rest)
    ensures LexUnquoted(p, word + rest) == Word(word, rest)
  {
    hide IsSafe, IsActive, IsDelimiter;
    if word == "" {
      assert word + rest == rest;
    } else {
      assert (word + rest)[1..] == word[1..] + rest;
      PlainWord(p, word[1..], rest);
      SafeIsPlain(word[0]);
      assert [word[0]] + word[1..] == word;
    }
  }

  lemma {:induction false} QuotedBody(p: Params, s: string, rest: string)
    requires EndsWord(rest)
    ensures LexSingle(p, Escape(s) + "'" + rest) == Word(s, rest)
  {
    var text := Escape(s) + "'" + rest;
    if s == "" {
      assert text[1..] == rest;
    } else if s[0] == '\'' {
      var tail := Escape(s[1..]) + "'" + rest;
      QuotedBody(p, s[1..], rest);
      assert text == "'\"'\"'" + tail;
      SteppedQuote(p, tail);
      assert ['\''] + s[1..] == s;
    } else {
      assert text[1..] == Escape(s[1..]) + "'" + rest;
      QuotedBody(p, s[1..], rest);
      assert [s[0]] + s[1..] == s;
    }
  }

  /** The five characters that stand for one single quote, read from inside single quotes. */
  lemma SteppedQuote(p: Params, tail: string)
    ensures LexSingle(p, "'\"'\"'" + tail) == Prepend("'", LexSingle(p, tail))
  {
    var text := "'\"'\"'" + tail;
    assert text[1..] == "\"'\"'" + tail;
    assert text[1..][1..] == "'\"'" + tail;
    assert text[1..][1..][1..] == "\"'" + tail;
    assert text[1..][1..][1..][1..] == "'" + tail;
    assert text[1..][1..][1..][1..][1..] == tail;
    assert LexSingle(p, text) == LexUnquoted(p, text[1..]);
    assert LexUnquoted(p, text[1..]) == LexDouble(p, text[1..][1..]);
    assert LexDouble(p, text[1..][1..]) == Prepend("'", LexDouble(p, text[1..][1..][1..]));
    assert LexDouble(p, text[1..][1..][1..]) == LexUnquoted(p, text[1..][1..][1..][1..]);
  }

  /** Quote removal on a quoted text gives one word, equal to the text, for every text. */
  lemma QuoteIsOneWord(p: Params, s: string, rest: string)
    requires EndsWord(rest)
    ensures Quote(s) != "" && !IsDelimiter(Quote(s)[0])
    ensures LexUnquoted(p, Quote(s) + rest) == Word(s, rest)
  {
    hide IsSafe, IsActive, IsDelimiter, Escape;
    if s == "" {
      EmptyQuotes(p, rest);
    } else if AllSafe(s) {
      PlainWord(p, s, rest);
      SafeIsPlain(s[0]);
    } else {
      QuotesDelimit();
      assert (Quote(s) + rest)[1..] == Escape(s) + "'" + rest;
      QuotedBody(p, s, rest);
    }
  }

  lemma QuotesDelimit()
    ensures !IsDelimiter('\'')
  {
  }

  lemma EmptyQuotes(p: Params, rest: string)
    requires EndsWord(rest)
    ensures Quote("") == "''" && !IsDelimiter('\'')
    ensures LexUnquoted(p, "''" + rest) == Word("", rest)
  {
    assert ("''" + rest)[1..] == "'" + rest;
    assert ("'" + rest)[1..] == rest;
    assert LexUnquoted(p, rest) == Word("", rest);
    assert LexSingle(p, "'" + rest) == LexUnquoted(p, rest);
  }

  /** One word in front of a blank, as a step of splitting. */
  lemma SplitStep(p: Params, quoted: string, word: string, rest: string)
    requires quoted != "" && !IsDelimiter(quoted[0])
    requires LexUnquoted(p, quoted + " " + rest) == Word(word, " " + rest)
    ensures Split(p, quoted + " " + rest) == (
      match Split(p, rest) case NotSimple => NotSimple case Fields(words, r) => Fields([word] + words, r))
  {
    var s := quoted + " " + rest;
    assert s[0] == quoted[0];
    assert (" " + rest)[1..] == rest;
    assert Split(p, " " + rest) == Split(p, rest);
  }

  lemma SplitPlain(p: Params, word: string, rest: string)
    requires word != "" && AllSafe(word)
    ensures Split(p, word + " " + rest) == (
      match Split(p, rest) case NotSimple => NotSimple case Fields(words, r) => Fields([word] + words, r))
  {
    assert word + " " + rest == word + (" " + rest);
    PlainWord(p, word, " " + rest);
    SafeIsPlain(word[0]);
    SplitStep(p, word, word, rest);
  }

  lemma SplitLast(p: Params, s: string, rest: string)
    requires rest == "" || (IsDelimiter(rest[0]) && !IsBlank(rest[0]))
    ensures Split(p, Quote(s) + rest) == Fields([s], rest)
  {
    QuoteIsOneWord(p, s, rest);
    assert (Quote(s) + rest)[0] == Quote(s)[0];
    assert Split(p, rest) == Fields([], rest);
  }

  /** For non-interactive sudo the inner layer comes off to the original query, for every query. */
  lemma SudoQuotingRoundTrip(p: Params, command: UnixCommand)
    ensures Split(p, command.NonInteractiveText()) ==
      Fields(["sudo", "-n", "--", "sh", "-c", command.query], "")
  {
    var q := Quote(command.query);
    SplitLast(p, command.query, "");
    SafeLiterals();
    hide AllSafe, Split, Quote;
    assert q + "" == q;
    SplitPlain(p, "-c", q);
    var r1 := "-c" + " " + q;
    SplitPlain(p, "sh", r1);
    var r2 := "sh" + " " + r1;
    SplitPlain(p, "--", r2);
    var r3 := "--" + " " + r2;
    SplitPlain(p, "-n", r3);
    var r4 := "-n" + " " + r3;
    SplitPlain(p, "sudo", r4);
    JoinedWords(q);
  }

  lemma JoinedWords(q: string)
    ensures "sudo -n -- sh -c " + q ==
      "sudo" + " " + ("-n" + " " + ("--" + " " + ("sh" + " " + ("-c" + " " + q))))
  {
    assert "sh" + " " + ("-c" + " " + q) == "sh -c " + q;
    assert "--" + " " + ("sh -c " + q) == "-- sh -c " + q;
    assert "-n" + " " + ("-- sh -c " + q) == "-n -- sh -c " + q;
  }

  lemma SafeLiterals()
    ensures AllSafe("sudo") && AllSafe("-n") && AllSafe("--") && AllSafe("sh") && AllSafe("-c")
  {
  }

  /** The outer layer: eval gets one argument, equal to the text of the command. */
  lemma EvalQuotingRoundTrip(p: Params, text: string, rest: string)
    ensures Split(p, "eval " + Quote(text) + ";" + rest) == Fields(["eval", text], ";" + rest)
  {
    hide *;
    EvalText();
    assert (";" + rest)[0] == ';';
    SplitLast(p, text, ";" + rest);
    SplitPlain(p, "eval", Quote(text) + (";" + rest));
    assert "eval " + Quote(text) + ";" + rest == "eval" + " " + (Quote(text) + (";" + rest));
  }

  lemma EvalText()
    ensures AllSafe("eval") && IsDelimiter(';') && !IsBlank(';')
  {
  }

  function InFront(word: string, f: Fields): Fields {
    if f.NotSimple? then NotSimple else Fields([word] + f.words, f.rest)
  }

  /** The words that a shell makes of the command: sudo goes in front only when it is asked for. */
  lemma TextWords(p: Params, command: UnixCommand)
    ensures !command.sudo ==> command.Text() == command.query
    ensures command.sudo && command.nonInteractive ==>
      Split(p, command.Text()) == Fields(["sudo", "-n", "--", "sh", "-c", command.query], "")
    ensures command.sudo && !command.nonInteractive ==>
      Split(p, command.Text()) == InFront("sudo", Split(p, command.query))
  {
    if command.sudo && command.nonInteractive {
      SudoQuotingRoundTrip(p, command);
    } else if command.sudo {
      SafeLiterals();
      SplitPlain(p, "sudo", command.query);
      assert "sudo" + " " + command.query == "sudo " + command.query;
    }
  }

  // ----- What escaping cannot create -----

  predicate OccursAt(t: string, s: string, k: nat) {
    k + |t| <= |s| && s[k..k + |t|] == t
  }

  predicate Contains(s: string, t: string) { exists k: nat :: k <= |s| && OccursAt(t, s, k) }

  lemma OccurrenceInPart(t: string, before: string, part: string, after: string, k: nat)
    requires OccursAt(t, before + part + after, k) && |before| <= k && k + |t| <= |before + part|
    ensures k - |before| <= |part| && OccursAt(t, part, k - |before|)
  {
    assert (before + part + after)[k..k + |t|] == part[k - |before|..k - |before| + |t|];
  }

  lemma OccurrenceInWhole(t: string, before: string, part: string, k: nat)
    requires OccursAt(t, part, k)
    ensures OccursAt(t, before + part, |before| + k)
  {
    assert (before + part)[|before| + k..|before| + k + |t|] == part[k..k + |t|];
  }

  lemma {:induction false} EscapedPrefix(s: string, t: string)
    requires '\'' !in t && '"' !in t && t <= Escape(s)
    ensures t <= s
  {
    if t != "" {
      assert t[0] == Escape(s)[0];
      assert s[0] != '\'';
      assert Escape(s)[1..] == Escape(s[1..]);
      assert t[1..] <= Escape(s)[1..];
      EscapedPrefix(s[1..], t[1..]);
      assert s == [s[0]] + s[1..] && t == [t[0]] + t[1..];
    }
  }

  /** Escaping creates no occurrence of a text without quotes. */
  lemma {:induction false} EscapedOccurrence(s: string, t: string, k: nat)
    requires t != "" && '\'' !in t && '"' !in t && OccursAt(t, Escape(s), k)
    ensures Contains(s, t)
  {
    var head := if s[0] == '\'' then "'\"'\"'" else [s[0]];
    var tail := Escape(s[1..]);
    assert Escape(s) == head + tail;
    if k >= |head| {
      assert head + tail == head + tail + "";
      OccurrenceInPart(t, head, tail, "", k);
      EscapedOccurrence(s[1..], t, k - |head|);
      var j: nat :| j <= |s[1..]| && OccursAt(t, s[1..], j);
      OccurrenceInWhole(t, [s[0]], s[1..], j);
      assert s == [s[0]] + s[1..];
    } else {
      assert Escape(s)[k] == Escape(s)[k..k + |t|][0] == t[0];
      assert s[0] != '\'' && k == 0;
      EscapedPrefix(s, t);
      assert OccursAt(t, s, 0);
    }
  }
}
