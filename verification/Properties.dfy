/**
The Java properties file with the run metadata: the printer, the rules by which
java.util.Properties.load reads a file, and the UTF-16 code units that a Java string has.
*/
module Properties {
  import opened Sequences

  // ----- UTF-16 (section 2.1 of RFC 2781) -----

  type unit = u: int | 0 <= u < 0x10000

  function Units(c: char): (r: seq<unit>)
    ensures r != []
  {
    var n := c as int;
    if n < 0x10000 then [n] else [0xD800 + (n - 0x10000) / 0x400, 0xDC00 + (n - 0x10000) % 0x400]
  }

  function Utf16(s: string): seq<unit> {
    if s == "" then [] else Units(s[0]) + Utf16(s[1..])
  }

  lemma UnitsDetermineCharacter(a: char, b: char, restA: seq<unit>, restB: seq<unit>)
    requires Units(a) + restA == Units(b) + restB
    ensures a == b && restA == restB
  {
    var all := Units(a) + restA;
    assert all[0] == Units(a)[0] && all[0] == Units(b)[0];
    if a as int >= 0x10000 {
      assert all[1] == Units(a)[1] && all[1] == Units(b)[1];
    }
    assert a == b;
    assert restA == all[|Units(a)|..] && restB == all[|Units(b)|..];
  }

  /** Distinct texts have distinct code units. */
  lemma {:induction false} Utf16IsInjective(a: string, b: string)
    requires Utf16(a) == Utf16(b)
    ensures a == b
  {
    if a != "" && b != "" {
      UnitsDetermineCharacter(a[0], b[0], Utf16(a[1..]), Utf16(b[1..]));
      Utf16IsInjective(a[1..], b[1..]);
    }
  }

  // ----- The printer -----

  function HexDigit(d: nat): (c: char)
    requires d < 16
    ensures '0' <= c <= '9' || 'a' <= c <= 'f'
  {
    if d < 10 then ('0' as int + d) as char else ('a' as int + d - 10) as char
  }

  function UnicodeEscape(u: unit): (r: string)
    ensures |r| == 6
  {
    "\\u" + [HexDigit(u / 0x1000), HexDigit(u / 0x100 % 16), HexDigit(u / 16 % 16), HexDigit(u % 16)]
  }

  /** The pieces that one character outside printable ASCII contributes. */
  function Pieces(units: seq<unit>): (r: seq<string>)
    ensures |r| == |units|
  {
    seq(|units|, i requires 0 <= i < |units| => UnicodeEscape(units[i]))
  }

  function UnicodeEscapes(units: seq<unit>): string {
    Flatten(Pieces(units))
  }

  function EscapeCharacter(c: char): string {
    if c in "\\ =:#!" then ['\\', c]
    else if '!' <= c <= '~' then [c]
    else UnicodeEscapes(Units(c))
  }

  function Escape(value: string): string {
    if value == "" then "" else EscapeCharacter(value[0]) + Escape(value[1..])
  }

  lemma {:induction false} EscapeConcat(a: string, b: string)
    ensures Escape(a + b) == Escape(a) + Escape(b)
  {
    if a == "" {
      assert a + b == b;
    } else {
      assert (a + b)[1..] == a[1..] + b;
      EscapeConcat(a[1..], b);
    }
  }

  /** The pieces of the escaped value, collected in a list and joined. */
  method EscapeProperty(value: string) returns (r: string)
    ensures r == Escape(value)
  {
    hide Escape, EscapeCharacter, Flatten;
    var escaped: seq<string> := [];
    EscapeNothing();
    FlattenNil<char>();
    for i := 0 to |value|
      invariant Flatten(escaped) == Escape(value[..i])
    {
      var character := value[i];
      EscapeSnoc(value[..i], character);
      assert value[..i + 1] == value[..i] + [character];
      EscapeCases(character);
      if character in "\\ =:#!" {
        FlattenSnoc(escaped, ['\\', character]);
        escaped := escaped + [['\\', character]];
      } else if '!' <= character <= '~' {
        FlattenSnoc(escaped, [character]);
        escaped := escaped + [[character]];
      } else {
        FlattenConcat(escaped, Pieces(Units(character)));
        escaped := escaped + Pieces(Units(character));
      }
    }
    assert value[..|value|] == value;
    r := Flatten(escaped);
  }

  lemma EscapeNothing()
    ensures Escape("") == ""
  {
  }

  lemma EscapeSnoc(value: string, c: char)
    ensures Escape(value + [c]) == Escape(value) + EscapeCharacter(c)
  {
    hide EscapeCharacter;
    EscapeConcat(value, [c]);
    assert Escape([c]) == EscapeCharacter(c);
  }

  lemma EscapeCases(c: char)
    ensures EscapeCharacter(c) ==
      if c in "\\ =:#!" then ['\\', c] else if '!' <= c <= '~' then [c] else Flatten(Pieces(Units(c)))
  {
  }

  datatype Property = Property(name: string, value: string)

  /** The file: one line for each property, with the newline of the platform. */
  function File(properties: seq<Property>, newline: string): string {
    if properties == [] then ""
    else
      properties[0].name + "=" + Escape(properties[0].value) + newline + File(properties[1..], newline)
  }

  // ----- The loader: java.util.Properties.load -----

  const FORM_FEED := '\U{000C}'

  predicate IsBlank(c: char) { c == ' ' || c == '\t' || c == FORM_FEED }
  predicate IsTerminator(c: char) { c == '\n' || c == '\r' }

  function SkipBlanks(text: string): (r: string)
    ensures |r| <= |text|
  {
    if text != "" && IsBlank(text[0]) then SkipBlanks(text[1..]) else text
  }

  /** Blank lines and the white space before the first character of a line. */
  function SkipToContent(text: string): (r: string)
    ensures |r| <= |text|
  {
    if text != "" && (IsBlank(text[0]) || IsTerminator(text[0])) then SkipToContent(text[1..]) else text
  }

  function SkipLine(text: string): (r: string)
    ensures |r| <= |text|
    ensures text != "" ==> |r| < |text|
  {
    if text == "" then ""
    else if IsTerminator(text[0]) then text[1..]
    else SkipLine(text[1..])
  }

  /** A terminator, where a carriage return and the newline after it are one. */
  function SkipTerminator(text: string): (r: string)
    requires text != ""
    ensures |r| < |text|
  {
    if text[0] == '\r' && |text| > 1 && text[1] == '\n' then text[2..] else text[1..]
  }

  /**
  One logical line and the text behind it. A backslash before a terminator joins the next line
  without its leading white space; any other character behind a backslash stays with it.
  */
  function LogicalLine(text: string): (r: (string, string))
    ensures |r.1| <= |text|
    ensures text != "" ==> |r.1| < |text|
    decreases |text|
  {
    if text == "" then ("", "")
    else if IsTerminator(text[0]) then ("", text[1..])
    else if text[0] != '\\' then
      var rest := LogicalLine(text[1..]);
      ([text[0]] + rest.0, rest.1)
    else if |text| == 1 then ("", "")
    else if IsTerminator(text[1]) then LogicalLine(SkipBlanks(SkipTerminator(text[1..])))
    else
      var rest := LogicalLine(text[2..]);
      (text[..2] + rest.0, rest.1)
  }

  /** The length of the key: up to the first separator that no backslash escapes. */
  function KeyLength(line: string): (n: nat)
    ensures n <= |line|
  {
    if line == "" || IsBlank(line[0]) || line[0] == '=' || line[0] == ':' then 0
    else if line[0] == '\\' && |line| > 1 then 2 + KeyLength(line[2..])
    else 1 + KeyLength(line[1..])
  }

  /** The value behind the key: white space, at most one '=' or ':', and white space again are skipped. */
  function ValueOf(line: string): string {
    var behind := SkipBlanks(line[KeyLength(line)..]);
    if behind != "" && (behind[0] == '=' || behind[0] == ':') then SkipBlanks(behind[1..]) else behind
  }

  function HexValue(c: char): Option<nat> {
    if '0' <= c <= '9' then Some(c as int - '0' as int)
    else if 'a' <= c <= 'f' then Some(c as int - 'a' as int + 10)
    else if 'A' <= c <= 'F' then Some(c as int - 'A' as int + 10)
    else None
  }

  function HexUnit(text: string): (r: Option<unit>)
    requires |text| == 4
  {
    match (HexValue(text[0]), HexValue(text[1]), HexValue(text[2]), HexValue(text[3]))
    case (Some(a), Some(b), Some(c), Some(d)) =>
      var u := a * 0x1000 + b * 0x100 + c * 16 + d;
      if u < 0x10000 then Some(u) else None
    case _ => None
  }

  function Prepend(units: seq<unit>, rest: Option<seq<unit>>): Option<seq<unit>> {
    match rest
    case None => None
    case Some(more) => Some(units + more)
  }

  /** The character that a letter behind a backslash stands for. */
  function Control(c: char): char {
    if c == 't' then '\t' else if c == 'n' then '\n' else if c == 'r' then '\r' else if c == 'f' then FORM_FEED else c
  }

  /** The string that an escaped text stands for; a malformed Unicode escape is an error. */
  function Unescape(text: string): Option<seq<unit>> {
    if text == "" || text == "\\" then Some([])
    else if text[0] != '\\' then Prepend(Units(text[0]), Unescape(text[1..]))
    else if text[1] != 'u' then Prepend(Units(Control(text[1])), Unescape(text[2..]))
    else if |text| < 6 then None
    else
      match HexUnit(text[2..6])
      case None => None
      case Some(u) => Prepend([u], Unescape(text[6..]))
  }

  datatype Entry = Entry(key: seq<unit>, value: seq<unit>)

  function EntryOf(line: string): Option<Entry> {
    match (Unescape(line[..KeyLength(line)]), Unescape(ValueOf(line)))
    case (Some(key), Some(value)) => Some(Entry(key, value))
    case _ => None
  }

  /** The entries of a file in order, or nothing when an escape is malformed. */
  function Load(text: string): Option<seq<Entry>>
    decreases |text|
  {
    var content := SkipToContent(text);
    if content == "" then Some([])
    else if content[0] == '#' || content[0] == '!' then Load(SkipLine(content))
    else
      var (line, rest) := LogicalLine(content);
      if line == "" then Load(rest)
      else
        match (EntryOf(line), Load(rest))
        case (Some(entry), Some(entries)) => Some([entry] + entries)
        case _ => None
  }

  // ----- Unescaping undoes escaping -----

  lemma HexUnitRoundTrip(u: unit)
    ensures HexUnit(UnicodeEscape(u)[2..6]) == Some(u)
  {
    hide HexDigit, HexValue;
    var digits := UnicodeEscape(u)[2..6];
    HexValueRoundTrip(u / 0x1000);
    HexValueRoundTrip(u / 0x100 % 16);
    HexValueRoundTrip(u / 16 % 16);
    HexValueRoundTrip(u % 16);
    assert u / 16 == u / 0x100 * 16 + u / 16 % 16;
    assert u / 0x100 == u / 0x1000 * 16 + u / 0x100 % 16;
  }

  lemma HexValueRoundTrip(d: nat)
    requires d < 16
    ensures HexValue(HexDigit(d)) == Some(d)
  {
  }

  lemma PrependNothing(rest: Option<seq<unit>>)
    ensures Prepend([], rest) == rest
  {
    assert rest.Some? ==> [] + rest.value == rest.value;
  }

  lemma PrependConcat(a: seq<unit>, b: seq<unit>, rest: Option<seq<unit>>)
    ensures Prepend(a, Prepend(b, rest)) == Prepend(a + b, rest)
  {
    assert rest.Some? ==> a + (b + rest.value) == a + b + rest.value;
  }

  lemma UnicodeEscapesSteps(units: seq<unit>)
    ensures units == [] ==> UnicodeEscapes(units) == ""
    ensures units != [] ==> UnicodeEscapes(units) == UnicodeEscape(units[0]) + UnicodeEscapes(units[1..])
  {
    hide UnicodeEscape;
    if units != [] {
      assert Pieces(units) == [UnicodeEscape(units[0])] + Pieces(units[1..]);
    }
  }

  lemma UnescapeUnicode(u: unit, rest: string)
    ensures Unescape(UnicodeEscape(u) + rest) == Prepend([u], Unescape(rest))
  {
    var text := UnicodeEscape(u) + rest;
    HexUnitRoundTrip(u);
    assert text[2..6] == UnicodeEscape(u)[2..6] && text[6..] == rest;
  }

  lemma {:induction false} UnescapeUnicodes(units: seq<unit>, rest: string)
    ensures Unescape(UnicodeEscapes(units) + rest) == Prepend(units, Unescape(rest))
  {
    hide Unescape, UnicodeEscape, UnicodeEscapes;
    UnicodeEscapesSteps(units);
    if units == [] {
      assert UnicodeEscapes(units) + rest == rest;
      PrependNothing(Unescape(rest));
    } else {
      var more := UnicodeEscapes(units[1..]) + rest;
      assert UnicodeEscapes(units) + rest == UnicodeEscape(units[0]) + more;
      UnescapeUnicode(units[0], more);
      UnescapeUnicodes(units[1..], rest);
      PrependConcat([units[0]], units[1..], Unescape(rest));
      assert units == [units[0]] + units[1..];
    }
  }

  lemma UnescapeCharacter(c: char, rest: string)
    ensures Unescape(EscapeCharacter(c) + rest) == Prepend(Units(c), Unescape(rest))
  {
    var text := EscapeCharacter(c) + rest;
    if c in "\\ =:#!" {
      assert text[0] == '\\' && text[1] == c && text[2..] == rest;
    } else if '!' <= c <= '~' {
      assert text[0] == c && text[1..] == rest;
    } else {
      UnescapeUnicodes(Units(c), rest);
    }
  }

  /** Unescaping an escaped value gives exactly its UTF-16 code units. */
  lemma {:induction false} UnescapeUndoesEscape(value: string)
    ensures Unescape(Escape(value)) == Some(Utf16(value))
  {
    hide Unescape, EscapeCharacter, Units;
    if value == "" {
      UnescapeNothing();
    } else {
      UnescapeCharacter(value[0], Escape(value[1..]));
      UnescapeUndoesEscape(value[1..]);
    }
  }

  lemma UnescapeNothing()
    ensures Unescape("") == Some([])
  {
  }

  /** Distinct values never have the same escaped form. */
  lemma EscapeIsInjective(a: string, b: string)
    requires Escape(a) == Escape(b)
    ensures a == b
  {
    UnescapeUndoesEscape(a);
    UnescapeUndoesEscape(b);
    Utf16IsInjective(a, b);
  }

  // ----- The escaped value stays within its line -----

  /** No terminator, and every backslash has a character behind it. */
  predicate OneLine(text: string) {
    if text == "" then true
    else if IsTerminator(text[0]) then false
    else if text[0] != '\\' then OneLine(text[1..])
    else |text| > 1 && !IsTerminator(text[1]) && OneLine(text[2..])
  }

  predicate Printable(text: string) { forall i :: 0 <= i < |text| ==> ' ' <= text[i] <= '~' }

  lemma {:induction false} OneLineConcat(a: string, b: string)
    requires OneLine(a) && OneLine(b)
    ensures OneLine(a + b)
    decreases |a|
  {
    if a == "" {
      assert a + b == b;
    } else if a[0] != '\\' {
      assert (a + b)[1..] == a[1..] + b;
      OneLineConcat(a[1..], b);
    } else {
      assert (a + b)[2..] == a[2..] + b;
      OneLineConcat(a[2..], b);
    }
  }

  lemma {:induction false} PlainIsOneLine(text: string)
    requires forall i :: 0 <= i < |text| ==> !IsTerminator(text[i]) && text[i] != '\\'
    ensures OneLine(text)
  {
    if text != "" {
      PlainIsOneLine(text[1..]);
    }
  }

  lemma UnicodeEscapeIsOneLine(u: unit)
    ensures OneLine(UnicodeEscape(u)) && Printable(UnicodeEscape(u))
  {
    var text := UnicodeEscape(u);
    PlainIsOneLine(text[2..]);
  }

  lemma {:induction false} UnicodeEscapesAreOneLine(units: seq<unit>)
    ensures OneLine(UnicodeEscapes(units)) && Printable(UnicodeEscapes(units))
    ensures units != [] ==> UnicodeEscapes(units) != "" && UnicodeEscapes(units)[0] == '\\'
  {
    hide OneLine, UnicodeEscapes;
    UnicodeEscapesSteps(units);
    if units == [] {
      PlainIsOneLine("");
    } else {
      UnicodeEscapeIsOneLine(units[0]);
      UnicodeEscapesAreOneLine(units[1..]);
      OneLineConcat(UnicodeEscape(units[0]), UnicodeEscapes(units[1..]));
    }
  }

  lemma EscapedCharacterIsOneLine(c: char)
    ensures OneLine(EscapeCharacter(c)) && Printable(EscapeCharacter(c))
    ensures EscapeCharacter(c) != "" && !IsBlank(EscapeCharacter(c)[0])
  {
    UnicodeEscapesAreOneLine(Units(c));
  }

  /** The escaped value is one line of printable ASCII that starts with no white space. */
  lemma {:induction false} EscapedIsOneLine(value: string)
    ensures OneLine(Escape(value)) && Printable(Escape(value))
    ensures Escape(value) != "" ==> !IsBlank(Escape(value)[0])
  {
    hide OneLine, EscapeCharacter;
    if value == "" {
      PlainIsOneLine("");
    } else {
      EscapedCharacterIsOneLine(value[0]);
      EscapedIsOneLine(value[1..]);
      OneLineConcat(EscapeCharacter(value[0]), Escape(value[1..]));
    }
  }

  // ----- The whole file -----

  /** A name that needs no escaping: letters, digits and underscores. */
  predicate IsPlainName(name: string) {
    name != "" && forall i :: 0 <= i < |name| ==>
      'a' <= name[i] <= 'z' || 'A' <= name[i] <= 'Z' || '0' <= name[i] <= '9' || name[i] == '_'
  }

  lemma {:induction false} LogicalLineIsTheLine(line: string, behind: string)
    requires OneLine(line) && behind != "" && IsTerminator(behind[0])
    ensures LogicalLine(line + behind) == (line, behind[1..])
    decreases |line|
  {
    var text := line + behind;
    if line == "" {
      assert text == behind;
    } else if line[0] != '\\' {
      assert text[1..] == line[1..] + behind && [text[0]] + line[1..] == line;
      LogicalLineIsTheLine(line[1..], behind);
    } else {
      assert text[2..] == line[2..] + behind && text[..2] + line[2..] == line;
      LogicalLineIsTheLine(line[2..], behind);
    }
  }

  lemma {:induction false} KeyLengthOfPlain(name: string, rest: string)
    requires forall i :: 0 <= i < |name| ==> !IsBlank(name[i]) && name[i] !in "=:\\"
    ensures KeyLength(name + "=" + rest) == |name|
  {
    var line := name + "=" + rest;
    if name != "" {
      assert line[1..] == name[1..] + "=" + rest;
      KeyLengthOfPlain(name[1..], rest);
    }
  }

  lemma {:induction false} UnescapePlain(name: string)
    requires '\\' !in name
    ensures Unescape(name) == Some(Utf16(name))
  {
    if name != "" {
      UnescapePlain(name[1..]);
    }
  }

  function ToEntry(p: Property): Entry { Entry(Utf16(p.name), Utf16(p.value)) }

  function ToEntries(properties: seq<Property>): (r: seq<Entry>)
    ensures |r| == |properties|
  {
    seq(|properties|, i requires 0 <= i < |properties| => ToEntry(properties[i]))
  }

  function Line(p: Property): string { p.name + "=" + Escape(p.value) }

  lemma LineIsRead(p: Property)
    requires IsPlainName(p.name)
    ensures EntryOf(Line(p)) == Some(ToEntry(p))
    ensures OneLine(Line(p))
  {
    hide Unescape, Escape, KeyLength, OneLine;
    var line := Line(p);
    KeyLengthOfPlain(p.name, Escape(p.value));
    EscapedIsOneLine(p.value);
    assert line[..|p.name|] == p.name && line[|p.name|..] == "=" + Escape(p.value);
    UnescapePlain(p.name);
    UnescapeUndoesEscape(p.value);
    PlainIsOneLine(p.name + "=");
    OneLineConcat(p.name + "=", Escape(p.value));
  }

  lemma LoadLine(p: Property, newline: string, rest: string)
    requires IsPlainName(p.name) && newline in {"\n", "\r\n"}
    ensures Load(Line(p) + newline + rest) ==
      match Load(rest) { case Some(entries) => Some([ToEntry(p)] + entries) case None => None }
  {
    hide Escape, EntryOf, LogicalLine, OneLine;
    var behind := newline + rest;
    var text := Line(p) + behind;
    assert text == Line(p) + newline + rest;
    assert SkipToContent(text) == text;
    LineIsRead(p);
    LogicalLineIsTheLine(Line(p), behind);
    assert SkipToContent(behind[1..]) == SkipToContent(rest);
  }

  /** Loading the file of the run metadata gives the names and values, all of them and in order. */
  lemma {:induction false} LoadUndoesFile(properties: seq<Property>, newline: string)
    requires forall i :: 0 <= i < |properties| ==> IsPlainName(properties[i].name)
    requires newline in {"\n", "\r\n"}
    ensures Load(File(properties, newline)) == Some(ToEntries(properties))
  {
    hide Load, IsPlainName, Escape, ToEntry;
    if properties == [] {
      LoadNothing();
    } else {
      var rest := File(properties[1..], newline);
      LoadLine(properties[0], newline, rest);
      LoadUndoesFile(properties[1..], newline);
      assert Line(properties[0]) + newline + rest == File(properties, newline);
      assert ToEntries(properties) == [ToEntry(properties[0])] + ToEntries(properties[1..]);
    }
  }

  lemma LoadNothing()
    ensures Load("") == Some([])
  {
  }
}
