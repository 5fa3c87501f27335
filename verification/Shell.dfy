/**
A shell that runs a line of simple commands separated by semicolons: assignments, printf, and an eval
whose effect is given. Sections 2.5, 2.8.2, 2.9.1 and the eval and printf utilities of the POSIX Shell
Command Language; anything else is unknown to it.
*/
module Shell {
  import opened Sequences
  import opened ShellQuoting

  /** What evaluating a text does: what it prints, the status it ends with and the variables it leaves. */
  datatype Effect = Effect(output: string, status: nat, variables: map<string, string>)

  /** The one text whose evaluation is known. */
  datatype Known = Known(text: string, effect: Effect)

  /** The parameters of the shell and all that it has printed. */
  datatype State = State(params: Params, output: string)

  function SkipBlanks(s: string): (r: string)
    ensures |r| <= |s|
    ensures r == "" || !IsBlank(r[0])
  {
    if s != "" && IsBlank(s[0]) then SkipBlanks(s[1..]) else s
  }

  /** What printf prints: newline and backslash escapes, and one argument for each %s. */
  function Format(format: string, arguments: seq<string>): Option<string> {
    if format == "" then (if arguments == [] then Some("") else None)
    else if format[0] == '\\' then
      if |format| == 1 then None
      else if format[1] == 'n' then Then("\n", Format(format[2..], arguments))
      else if format[1] == '\\' then Then("\\", Format(format[2..], arguments))
      else None
    else if format[0] == '%' then
      if |format| == 1 then None
      else if format[1] == '%' then Then("%", Format(format[2..], arguments))
      else if format[1] != 's' then None
      else if arguments == [] then Format(format[2..], [])
      else Then(arguments[0], Format(format[2..], arguments[1..]))
    else Then([format[0]], Format(format[1..], arguments))
  }

  function Then(text: string, r: Option<string>): Option<string> {
    match r
    case None => None
    case Some(more) => Some(text + more)
  }

  /** The shell after a command, and what follows the command on the line. */
  datatype Step = Step(state: State, rest: string) | Unknown

  /** Set a variable; the status of an assignment on its own is zero. */
  function Assign(s: State, name: string, value: string): State {
    s.(params := Params(0, s.params.variables[name := value]))
  }

  /** name=word, with the word expanded before the assignment takes effect. */
  function Assignment(s: State, name: string, word: string): (r: Step)
    ensures r.Step? ==> |r.rest| <= |word|
  {
    match LexUnquoted(s.params, word)
    case NotQuotedText => Unknown
    case Word(value, rest) =>
      var after := SkipBlanks(rest);
      if after == "" || after[0] == ';' then Step(Assign(s, name, value), after) else Unknown
  }

  function Utility(known: Known, s: State, words: seq<string>): Option<State> {
    if words == ["eval", known.text] then
      var e := known.effect;
      Some(State(Params(e.status, e.variables), s.output + e.output))
    else if |words| > 1 && words[0] == "printf" then
      match Format(words[1], words[2..])
      case None => None
      case Some(text) => Some(State(s.params.(status := 0), s.output + text))
    else None
  }

  /** One simple command. */
  function Simple(known: Known, s: State, line: string): (r: Step)
    ensures r.Step? ==> |r.rest| <= |line|
  {
    var text := SkipBlanks(line);
    var name := NameOf(text);
    if name != "" && |name| < |text| && text[|name|] == '=' then Assignment(s, name, text[|name| + 1..])
    else
      SplitShortens(s.params, text);
      match Split(s.params, text)
      case NotSimple => Unknown
      case Fields(words, rest) =>
        match Utility(known, s, words)
        case None => Unknown
        case Some(after) => Step(after, rest)
  }

  lemma {:induction false} SplitShortens(p: Params, s: string)
    ensures Split(p, s).Fields? ==> |Split(p, s).rest| <= |s|
    decreases |s|
  {
    if s != "" && IsBlank(s[0]) {
      SplitShortens(p, s[1..]);
    } else if s != "" && !IsDelimiter(s[0]) && LexUnquoted(p, s).Word? {
      SplitShortens(p, LexUnquoted(p, s).rest);
    }
  }

  datatype Outcome = Ran(state: State) | NotRun

  /** A whole line of commands. */
  function Run(known: Known, s: State, line: string): Outcome
    decreases |line|
  {
    match Simple(known, s, line)
    case Unknown => NotRun
    case Step(after, rest) =>
      if rest == "" then Ran(after)
      else if rest[0] == ';' then Run(known, after, rest[1..])
      else NotRun
  }

  // ----- The commands that a console line is made of -----

  lemma RunStep(known: Known, s: State, line: string, after: State, rest: string)
    requires Simple(known, s, line) == Step(after, ";" + rest)
    ensures Run(known, s, line) == Run(known, after, rest)
  {
    assert (";" + rest)[1..] == rest;
  }

  lemma {:induction false} NameCharsOf(name: string, rest: string)
    requires forall i :: 0 <= i < |name| ==> IsNameChar(name[i])
    requires rest == "" || !IsNameChar(rest[0])
    ensures NameChars(name + rest) == name
  {
    hide IsNameChar;
    if name == "" {
      assert name + rest == rest;
    } else {
      assert (name + rest)[1..] == name[1..] + rest;
      NameCharsOf(name[1..], rest);
    }
  }

  lemma NameOfName(name: string, rest: string)
    requires IsName(name) && (rest == "" || !IsNameChar(rest[0]))
    ensures NameOf(name + rest) == name
  {
    assert (name + rest)[1..] == name[1..] + rest;
    NameCharsOf(name[1..], rest);
  }

  /** eval with one quoted argument. */
  lemma EvalRuns(known: Known, s: State, rest: string)
    ensures Simple(known, s, "eval " + Quote(known.text) + ";" + rest) ==
      Step(State(Params(known.effect.status, known.effect.variables), s.output + known.effect.output), ";" + rest)
  {
    hide Split, Quote, NameOf;
    var line := "eval " + Quote(known.text) + ";" + rest;
    EvalQuotingRoundTrip(s.params, known.text, rest);
    assert SkipBlanks(line) == line;
    assert line == "eval" + (" " + Quote(known.text) + ";" + rest);
    assert IsName("eval");
    NameOfName("eval", " " + Quote(known.text) + ";" + rest);
  }

  lemma SkipOne(s: string)
    requires s != "" && !IsBlank(s[0])
    ensures SkipBlanks(" " + s) == s
  {
    assert (" " + s)[1..] == s;
  }

  /** An assignment of a word that reads as this value. */
  lemma AssignmentRuns(known: Known, s: State, name: string, word: string, value: string, rest: string)
    requires IsName(name) && LexUnquoted(s.params, word + ";" + rest) == Word(value, ";" + rest)
    ensures Simple(known, s, " " + name + "=" + word + ";" + rest) == Step(Assign(s, name, value), ";" + rest)
  {
    hide LexUnquoted, NameOf, IsNameChar;
    var text := name + ("=" + word + ";" + rest);
    assert " " + name + "=" + word + ";" + rest == " " + text;
    NotBlank(name[0]);
    SkipOne(text);
    NameEnds();
    NameOfName(name, "=" + word + ";" + rest);
    assert text[|name| + 1..] == word + ";" + rest;
    assert SkipBlanks(";" + rest) == ";" + rest;
  }

  lemma NotBlank(c: char)
    ensures IsNameStart(c) ==> !IsBlank(c) && !IsDelimiter(c)
  {
  }

  lemma NameEnds()
    ensures !IsNameChar('=') && !IsNameChar('"') && !IsNameChar(' ')
  {
  }

  /** name=$? saves the status of the command before. */
  lemma StatusIsSaved(known: Known, s: State, name: string, rest: string)
    requires IsName(name)
    ensures Simple(known, s, " " + name + "=$?;" + rest) == Step(Assign(s, name, Digits(s.params.status)), ";" + rest)
  {
    var word := "$?;" + rest;
    assert word[2..] == ";" + rest;
    assert LexUnquoted(s.params, ";" + rest) == Word("", ";" + rest);
    assert Digits(s.params.status) + "" == Digits(s.params.status);
    assert LexUnquoted(s.params, word) == Word(Digits(s.params.status), ";" + rest);
    assert "$?" + ";" + rest == word;
    AssignmentRuns(known, s, name, "$?", Digits(s.params.status), rest);
    assert " " + name + "=$?;" + rest == " " + name + "=" + "$?" + ";" + rest;
  }

  lemma QuotedAssignmentRuns(known: Known, s: State, name: string, value: string, rest: string)
    requires IsName(name)
    ensures Simple(known, s, " " + name + "=" + Quote(value) + ";" + rest) == Step(Assign(s, name, value), ";" + rest)
  {
    hide LexUnquoted, Quote;
    QuoteIsOneWord(s.params, value, ";" + rest);
    assert Quote(value) + (";" + rest) == Quote(value) + ";" + rest;
    AssignmentRuns(known, s, name, Quote(value), value, rest);
  }

  /** Text that printf copies and that single quotes hold as it is. */
  predicate IsPlain(s: string) { forall i :: 0 <= i < |s| ==> s[i] !in "\\%'" }

  lemma {:induction false} FormatPlain(s: string, rest: string, arguments: seq<string>)
    requires IsPlain(s)
    ensures Format(s + rest, arguments) == Then(s, Format(rest, arguments))
  {
    if s == "" {
      assert s + rest == rest;
      ThenNothing(Format(rest, arguments));
    } else {
      assert (s + rest)[1..] == s[1..] + rest;
      FormatPlain(s[1..], rest, arguments);
      ThenThen([s[0]], s[1..], Format(rest, arguments));
      assert [s[0]] + s[1..] == s;
    }
  }

  lemma ThenNothing(r: Option<string>)
    ensures Then("", r) == r
  {
    assert r.Some? ==> "" + r.value == r.value;
  }

  lemma ThenThen(a: string, b: string, r: Option<string>)
    ensures Then(a, Then(b, r)) == Then(a + b, r)
  {
    assert r.Some? ==> a + (b + r.value) == a + b + r.value;
  }

  /** The marker: a newline, the token, the argument and a newline. */
  lemma MarkerFormat(token: string, argument: string)
    requires IsPlain(token)
    ensures Format("\\n" + token + "%s\\n", [argument]) == Some("\n" + token + argument + "\n")
  {
    hide IsPlain;
    var rest := "%s\\n";
    var format := "\\n" + token + rest;
    assert format[2..] == token + rest;
    FormatPlain(token, rest, [argument]);
    assert rest[2..] == "\\n" && "\\n"[2..] == "" && [argument][1..] == [];
    assert "\n" + "" == "\n";
    assert Format("\\n", []) == Some("\n");
    assert Format(rest, [argument]) == Some(argument + "\n");
    assert "\n" + (token + (argument + "\n")) == "\n" + token + argument + "\n";
  }

  lemma {:induction false} SingleQuoted(p: Params, text: string, rest: string)
    requires '\'' !in text && EndsWord(rest)
    ensures LexSingle(p, text + "'" + rest) == Word(text, rest)
  {
    var s := text + "'" + rest;
    if text == "" {
      assert s[1..] == rest;
    } else {
      assert s[1..] == text[1..] + "'" + rest;
      SingleQuoted(p, text[1..], rest);
      assert [text[0]] + text[1..] == text;
    }
  }

  /** A variable in double quotes is its value, as one word. */
  lemma QuotedVariable(p: Params, name: string)
    requires IsName(name)
    ensures LexUnquoted(p, "\"$" + name + "\"") == Word(ValueOf(p, name), "")
  {
    var s := "\"$" + name + "\"";
    assert s[1..] == "$" + name + "\"";
    assert s[1..][1..] == name + "\"";
    NameEnds();
    NameOfName(name, "\"");
    assert s[1..][1 + |name|..] == "\"";
    assert "\""[1..] == "";
    assert LexDouble(p, "\"") == Word("", "");
    assert ValueOf(p, name) + "" == ValueOf(p, name);
  }

  lemma PrintfWords(p: Params, format: string, name: string)
    requires '\'' !in format && IsName(name)
    ensures Split(p, " printf '" + format + "' \"$" + name + "\"") == Fields(["printf", format, ValueOf(p, name)], "")
  {
    hide Split, LexUnquoted, LexSingle, LexDouble, NameOf, ValueOf, IsName, IsSafe, AllSafe;
    var last := "\"$" + name + "\"";
    QuotedVariable(p, name);
    SplitOne(p, last, ValueOf(p, name));
    var second := "'" + format + "'";
    QuotedFirst(p, format, " " + last);
    assert second + " " + last == "'" + format + "'" + (" " + last);
    SplitStep(p, second, format, last);
    PrintfIsSafe();
    SplitPlain(p, "printf", second + " " + last);
    var line := "printf" + " " + (second + " " + last);
    assert " printf '" + format + "' \"$" + name + "\"" == " " + line;
    SplitBlank(p, line);
  }

  lemma PrintfIsSafe()
    ensures AllSafe("printf")
  {
  }

  lemma SplitBlank(p: Params, s: string)
    ensures Split(p, " " + s) == Split(p, s)
  {
    assert (" " + s)[1..] == s;
  }

  lemma SplitOne(p: Params, s: string, word: string)
    requires s != "" && !IsDelimiter(s[0]) && LexUnquoted(p, s) == Word(word, "")
    ensures Split(p, s) == Fields([word], "")
  {
    hide LexUnquoted;
    assert Split(p, "") == Fields([], "");
  }

  lemma QuotedFirst(p: Params, text: string, rest: string)
    requires '\'' !in text && EndsWord(rest)
    ensures LexUnquoted(p, "'" + text + "'" + rest) == Word(text, rest)
  {
    hide LexSingle;
    SingleQuoted(p, text, rest);
    assert ("'" + text + "'" + rest)[1..] == text + "'" + rest;
  }

  /** printf with the marker format and the saved status as the last command of a line. */
  lemma PrintfRuns(known: Known, s: State, token: string, name: string)
    requires IsPlain(token) && IsName(name)
    ensures Run(known, s, " printf '\\n" + token + "%s\\n' \"$" + name + "\"") ==
      Ran(State(s.params.(status := 0), s.output + ("\n" + token + ValueOf(s.params, name) + "\n")))
  {
    hide Split, NameOf, ValueOf, IsPlain, IsName, Format;
    var format := "\\n" + token + "%s\\n";
    var line := " printf '" + format + "' \"$" + name + "\"";
    assert " printf '\\n" + token + "%s\\n' \"$" + name + "\"" == line;
    PlainHasNoQuote(token);
    PrintfWords(s.params, format, name);
    MarkerFormat(token, ValueOf(s.params, name));
    var tail := " '" + format + "' \"$" + name + "\"";
    var text := "printf" + tail;
    assert line == " " + text;
    SkipOne(text);
    SplitBlank(s.params, text);
    PrintfIsName();
    NameEnds();
    NameOfName("printf", tail);
  }

  lemma PrintfIsName()
    ensures IsName("printf")
  {
  }

  lemma PlainHasNoQuote(s: string)
    requires IsPlain(s)
    ensures '\'' !in s
  {
  }
}
