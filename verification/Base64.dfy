/**
Base64 as the agent protocol and the session codec use it (sections 3.2, 4 and 5 of RFC 4648): the
padded encoder, the strict decoder (Python's validate=True), and the URL-safe unpadded pair whose
decoder re-pads the text and skips what is not in the alphabet. Bytes are regrouped into six-bit
values first and written as characters second.
*/
module Base64 {
  import opened Sequences

  const PAD := '='

  type sextet = v: int | 0 <= v < 64

  // ----- Bytes and six-bit values -----

  function First(p: sextet, q: sextet): byte { p * 4 + q / 16 }
  function Second(q: sextet, r: sextet): byte { q % 16 * 16 + r / 4 }
  function Third(r: sextet, s: sextet): byte { r % 4 * 64 + s }

  function Sextets(data: seq<byte>): seq<sextet> {
    if |data| == 0 then []
    else if |data| == 1 then [data[0] / 4, data[0] % 4 * 16]
    else if |data| == 2 then [data[0] / 4, data[0] % 4 * 16 + data[1] / 16, data[1] % 16 * 4]
    else
      [data[0] / 4, data[0] % 4 * 16 + data[1] / 16, data[1] % 16 * 4 + data[2] / 64, data[2] % 64]
      + Sextets(data[3..])
  }

  function Bytes(values: seq<sextet>): seq<byte> {
    if |values| < 2 then []
    else if |values| == 2 then [First(values[0], values[1])]
    else if |values| == 3 then [First(values[0], values[1]), Second(values[1], values[2])]
    else
      [First(values[0], values[1]), Second(values[1], values[2]), Third(values[2], values[3])]
      + Bytes(values[4..])
  }

  /** The bytes of one group come back, whether or not the group is complete. */
  lemma GroupRoundTrip(a: byte, b: byte, c: byte)
    ensures First(a / 4, a % 4 * 16 + b / 16) == a && First(a / 4, a % 4 * 16) == a
    ensures Second(a % 4 * 16 + b / 16, b % 16 * 4 + c / 64) == b && Second(a % 4 * 16 + b / 16, b % 16 * 4) == b
    ensures Third(b % 16 * 4 + c / 64, c % 64) == c
  {
  }

  lemma {:induction false} RegroupRoundTrip(data: seq<byte>)
    ensures Bytes(Sextets(data)) == data
  {
    hide First, Second, Third;
    if data != [] {
      GroupRoundTrip(data[0], if |data| > 1 then data[1] else 0, if |data| > 2 then data[2] else 0);
    }
    if |data| > 2 {
      RegroupRoundTrip(data[3..]);
      assert Sextets(data)[4..] == Sextets(data[3..]);
    }
  }

  lemma {:induction false} SextetCount(data: seq<byte>)
    ensures |Sextets(data)| == (|data| * 4 + 2) / 3
  {
    if |data| > 2 {
      SextetCount(data[3..]);
    }
  }

  // ----- Six-bit values and characters -----

  function Symbol(v: sextet): (c: char)
    ensures c != PAD && c != '-' && c != '_' && c != '.'
  {
    if v < 26 then ('A' as int + v) as char
    else if v < 52 then ('a' as int + v - 26) as char
    else if v < 62 then ('0' as int + v - 52) as char
    else if v == 62 then '+' else '/'
  }

  function Value(c: char): Option<sextet> {
    if 'A' <= c <= 'Z' then Some(c as int - 'A' as int)
    else if 'a' <= c <= 'z' then Some(c as int - 'a' as int + 26)
    else if '0' <= c <= '9' then Some(c as int - '0' as int + 52)
    else if c == '+' then Some(62)
    else if c == '/' then Some(63)
    else None
  }

  function Symbols(values: seq<sextet>): (text: string)
    ensures |text| == |values|
    ensures forall i :: 0 <= i < |text| ==> text[i] == Symbol(values[i])
  {
    seq(|values|, i requires 0 <= i < |values| => Symbol(values[i]))
  }

  predicate InAlphabet(text: string) { forall i :: 0 <= i < |text| ==> Value(text[i]).Some? }

  function Values(text: string): (values: seq<sextet>)
    requires InAlphabet(text)
    ensures |values| == |text|
  {
    seq(|text|, i requires 0 <= i < |text| => Value(text[i]).value)
  }

  lemma SymbolsRoundTrip(values: seq<sextet>)
    ensures InAlphabet(Symbols(values)) && Values(Symbols(values)) == values
    ensures PAD !in Symbols(values)
  {
  }

  // ----- The padded form -----

  /** The number of '=' that completes a text to a multiple of four. */
  function Missing(length: nat): (n: nat)
    ensures (length + n) % 4 == 0 && n < 4
  {
    if length % 4 == 0 then 0 else 4 - length % 4
  }

  function Encode(data: seq<byte>): string {
    Symbols(Sextets(data)) + Repeat(PAD, Missing(|Sextets(data)|))
  }

  /** Encoding takes four characters for every three bytes begun. */
  lemma EncodeLength(data: seq<byte>)
    ensures |Encode(data)| == (|data| + 2) / 3 * 4
  {
    SextetCount(data);
  }

  /** Strict decoding: whole groups of four, alphabet symbols only, at most two '=' at the end. */
  function DecodeStrict(text: string): Option<seq<byte>> {
    var body := RStrip(text, PAD);
    if |text| % 4 != 0 || |text| - |body| > 2 || !InAlphabet(body) then None
    else Some(Bytes(Values(body)))
  }

  lemma StripPadding(values: seq<sextet>, padding: nat)
    ensures RStrip(Symbols(values) + Repeat(PAD, padding), PAD) == Symbols(values)
  {
    RStripConcat(Symbols(values), Repeat(PAD, padding), PAD);
    RStripRepeat(padding);
  }

  lemma {:induction false} RStripRepeat(n: nat)
    ensures RStrip(Repeat(PAD, n), PAD) == []
  {
    if n > 0 {
      assert Repeat(PAD, n)[..n - 1] == Repeat(PAD, n - 1);
      RStripRepeat(n - 1);
    }
  }

  /** Strict decoding undoes encoding for every payload. */
  lemma StrictRoundTrip(data: seq<byte>)
    ensures DecodeStrict(Encode(data)) == Some(data)
  {
    var values := Sextets(data);
    SextetCount(data);
    StrictDecodes(values);
    RegroupRoundTrip(data);
  }

  lemma StrictDecodes(values: seq<sextet>)
    requires |values| % 4 != 1
    ensures DecodeStrict(Symbols(values) + Repeat(PAD, Missing(|values|))) == Some(Bytes(values))
  {
    hide Symbols, Values, Bytes, InAlphabet, RStrip, Repeat;
    var padding := Missing(|values|);
    var text := Symbols(values) + Repeat(PAD, padding);
    FewMissing(|values|);
    StripPadding(values, padding);
    SymbolsRoundTrip(values);
    assert |text| == |values| + padding;
  }

  lemma FewMissing(length: nat)
    requires length % 4 != 1
    ensures Missing(length) <= 2 && (length + Missing(length)) % 4 == 0
  {
  }

  // ----- The URL-safe, unpadded form -----

  function Translate(text: string, f: char -> char): (r: string)
    ensures |r| == |text|
    ensures forall i :: 0 <= i < |text| ==> r[i] == f(text[i])
  {
    seq(|text|, i requires 0 <= i < |text| => f(text[i]))
  }

  function ToUrl(c: char): char { if c == '+' then '-' else if c == '/' then '_' else c }
  function FromUrl(c: char): char { if c == '-' then '+' else if c == '_' then '/' else c }

  function EncodeUrl(data: seq<byte>): string {
    RStrip(Translate(Encode(data), ToUrl), PAD)
  }

  /**
  The lenient scan: characters outside the alphabet are skipped, a completed padding ends the scan,
  and text that stops inside a group is an error. The position counts symbols within the group.
  */
  function Scan(text: string, position: nat, pads: nat): Option<seq<sextet>> {
    if text == "" then (if position == 0 then Some([]) else None)
    else if text[0] == PAD then
      if position < 2 then Scan(text[1..], position, pads)
      else if position + pads + 1 >= 4 then Some([])
      else Scan(text[1..], position, pads + 1)
    else
      match Value(text[0])
      case None => Scan(text[1..], position, pads)
      case Some(v) =>
        match Scan(text[1..], (position + 1) % 4, 0)
        case None => None
        case Some(rest) => Some([v] + rest)
  }

  function DecodeUrl(text: string): Option<seq<byte>> {
    match Scan(Translate(text + Repeat(PAD, Missing(|text|)), FromUrl), 0, 0)
    case None => None
    case Some(values) => Some(Bytes(values))
  }

  /** A scan of symbols that are completed by exactly the missing padding collects every symbol. */
  lemma {:induction false} ScanCollects(values: seq<sextet>, position: nat, padding: nat)
    requires position < 4 && padding == Missing(position + |values|) && padding != 3
    ensures Scan(Symbols(values) + Repeat(PAD, padding), position, 0) == Some(values)
  {
    var text := Symbols(values) + Repeat(PAD, padding);
    if values == [] {
      if padding == 2 {
        assert text[1..][0] == PAD;
      }
    } else {
      assert text[1..] == Symbols(values[1..]) + Repeat(PAD, padding);
      ScanCollects(values[1..], (position + 1) % 4, padding);
      SymbolsRoundTrip(values);
      assert text[0] == Symbols(values)[0];
      assert values == [values[0]] + values[1..];
    }
  }

  lemma SymbolsAreStandard(values: seq<sextet>)
    ensures forall i :: 0 <= i < |Symbols(values)| ==>
      && Symbols(values)[i] !in {PAD, '-', '_', '.'}
      && FromUrl(ToUrl(Symbols(values)[i])) == Symbols(values)[i]
      && ToUrl(Symbols(values)[i]) !in {PAD, '.'}
  {
  }

  lemma UrlTranslation(values: seq<sextet>, padding: nat)
    ensures var text := Symbols(values) + Repeat(PAD, padding);
      RStrip(Translate(text, ToUrl), PAD) == Translate(Symbols(values), ToUrl)
    ensures Translate(Translate(Symbols(values), ToUrl) + Repeat(PAD, padding), FromUrl)
      == Symbols(values) + Repeat(PAD, padding)
  {
    hide RStrip, Sextets;
    hide Symbols, Symbol;
    var symbols, core, pads := Symbols(values), Translate(Symbols(values), ToUrl), Repeat(PAD, padding);
    SymbolsAreStandard(values);
    assert Translate(symbols + pads, ToUrl) == core + pads;
    assert Translate(core + pads, FromUrl) == symbols + pads;
    RStripConcat(core, Repeat(PAD, padding), PAD);
    RStripRepeat(padding);
  }

  /** Stripping the padding and putting (-length mod 4) of it back is lossless for every payload. */
  lemma UrlRoundTrip(data: seq<byte>)
    ensures DecodeUrl(EncodeUrl(data)) == Some(data)
  {
    hide Sextets, Scan, Bytes, Missing;
    var values := Sextets(data);
    UrlTranslation(values, Missing(|values|));
    NeverThree(data);
    ScanCollects(values, 0, Missing(|values|));
    RegroupRoundTrip(data);
  }

  lemma NeverThree(data: seq<byte>)
    ensures Missing(|Sextets(data)|) != 3
  {
    SextetCount(data);
  }

  /** The unpadded form has no '.' and no '=', so a '.' can separate it from a signature. */
  lemma UrlAlphabet(data: seq<byte>)
    ensures '.' !in EncodeUrl(data) && PAD !in EncodeUrl(data)
  {
    UrlTranslation(Sextets(data), Missing(|Sextets(data)|));
  }

  // ----- The texts themselves -----

  /** Table 1 of RFC 4648. */
  const ALPHABET := "ABCDEFGHIJKLMNOPQRSTUVWXYZ" + "abcdefghijklmnopqrstuvwxyz" + "0123456789" + "+/"

  lemma AlphabetRuns()
    ensures |ALPHABET| == 64
    ensures ALPHABET[..26] == "ABCDEFGHIJKLMNOPQRSTUVWXYZ"
    ensures ALPHABET[26..52] == "abcdefghijklmnopqrstuvwxyz"
    ensures ALPHABET[52..62] == "0123456789"
    ensures ALPHABET[62] == '+' && ALPHABET[63] == '/'
  {
  }

  lemma UpperRun(v: nat)
    requires v < 26
    ensures "ABCDEFGHIJKLMNOPQRSTUVWXYZ"[v] == ('A' as int + v) as char
  {
  }

  lemma LowerRun(v: nat)
    requires v < 26
    ensures "abcdefghijklmnopqrstuvwxyz"[v] == ('a' as int + v) as char
  {
  }

  lemma DigitRun(v: nat)
    requires v < 10
    ensures "0123456789"[v] == ('0' as int + v) as char
  {
  }

  /** A six-bit value is written as the character at its place in the alphabet, and read back from it. */
  lemma SymbolIsInAlphabet(v: sextet)
    ensures |ALPHABET| == 64 && Symbol(v) == ALPHABET[v] && Value(ALPHABET[v]) == Some(v)
  {
    AlphabetRuns();
    hide ALPHABET;
    if v < 26 {
      UpperRun(v);
      assert ALPHABET[v] == ALPHABET[..26][v];
    } else if v < 52 {
      LowerRun(v - 26);
      assert ALPHABET[v] == ALPHABET[26..52][v - 26];
    } else if v < 62 {
      DigitRun(v - 52);
      assert ALPHABET[v] == ALPHABET[52..62][v - 52];
    }
  }

  /** The number that these characters write in base 64, most significant first. */
  function Number(text: string): nat {
    if text == "" then 0
    else
      var v := Value(text[|text| - 1]);
      Number(text[..|text| - 1]) * 64 + if v.Some? then v.value else 0
  }

  lemma NumberOfSymbols(values: seq<sextet>, v: sextet)
    ensures Number(Symbols(values + [v])) == Number(Symbols(values)) * 64 + v
  {
    assert Symbols(values + [v])[..|values|] == Symbols(values);
  }

  lemma NumberOfFour(a: sextet, b: sextet, c: sextet, d: sextet)
    ensures Number(Symbols([a, b])) == a * 64 + b
    ensures Number(Symbols([a, b, c])) == (a * 64 + b) * 64 + c
    ensures Number(Symbols([a, b, c, d])) == ((a * 64 + b) * 64 + c) * 64 + d
  {
    hide Symbols, Number;
    NothingWritten();
    NumberOfSymbols([], a);
    NumberOfSymbols([a], b);
    NumberOfSymbols([a, b], c);
    NumberOfSymbols([a, b, c], d);
    assert [] + [a] == [a] && [a] + [b] == [a, b] && [a, b] + [c] == [a, b, c];
    assert [a, b, c] + [d] == [a, b, c, d];
  }

  lemma NothingWritten()
    ensures Number(Symbols([])) == 0
  {
  }

  /** The four values of a group of three bytes. */
  function Group(a: byte, b: byte, c: byte): seq<sextet> {
    [a / 4, a % 4 * 16 + b / 16, b % 16 * 4 + c / 64, c % 64]
  }

  lemma GroupNumber(a: byte, b: byte, c: byte)
    ensures |Symbols(Group(a, b, c))| == 4 && InAlphabet(Symbols(Group(a, b, c)))
    ensures Number(Symbols(Group(a, b, c))) == (a as int * 256 + b) * 256 + c
  {
    hide Symbols, Number, InAlphabet;
    SymbolsRoundTrip(Group(a, b, c));
    NumberOfFour(a / 4, a % 4 * 16 + b / 16, b % 16 * 4 + c / 64, c % 64);
  }

  lemma GroupComesFirst(data: seq<byte>)
    requires |data| >= 3
    ensures Encode(data) == Symbols(Group(data[0], data[1], data[2])) + Encode(data[3..])
  {
    hide Symbols;
    var group, rest := Group(data[0], data[1], data[2]), Sextets(data[3..]);
    assert Sextets(data) == group + rest && Missing(|group + rest|) == Missing(|rest|);
    SymbolsConcat(group, rest);
    assert Encode(data) == Symbols(group) + Symbols(rest) + Repeat(PAD, Missing(|rest|));
  }

  lemma SymbolsConcat(a: seq<sextet>, b: seq<sextet>)
    ensures Symbols(a + b) == Symbols(a) + Symbols(b)
  {
  }

  /** Each three bytes are the same number as the four characters for them, and come first. */
  lemma EncodeGroup(data: seq<byte>)
    requires |data| >= 3
    ensures
      var text := Encode(data);
      && |text| >= 4 && text[4..] == Encode(data[3..])
      && InAlphabet(text[..4]) && Number(text[..4]) == (data[0] as int * 256 + data[1]) * 256 + data[2]
  {
    hide Symbols, Number, InAlphabet, Encode, Group;
    GroupNumber(data[0], data[1], data[2]);
    GroupComesFirst(data);
    var text, first := Encode(data), Symbols(Group(data[0], data[1], data[2]));
    assert text[..4] == first && text[4..] == Encode(data[3..]);
  }

  /** One or two bytes at the end: the number is shifted to a whole number of characters, and padded. */
  lemma EncodeEnd(data: seq<byte>)
    ensures data == [] ==> Encode(data) == ""
    ensures |data| == 1 ==>
      var text := Encode(data);
      |text| == 4 && text[2..] == "==" && InAlphabet(text[..2]) && Number(text[..2]) == data[0] as int * 16
    ensures |data| == 2 ==>
      var text := Encode(data);
      && |text| == 4 && text[3..] == "=" && InAlphabet(text[..3])
      && Number(text[..3]) == (data[0] as int * 256 + data[1]) * 4
  {
    var values := Sextets(data);
    SymbolsRoundTrip(values);
    if |data| == 1 {
      NumberOfFour(values[0], values[1], 0, 0);
      assert values == [values[0], values[1]];
      assert Encode(data)[..2] == Symbols(values);
    } else if |data| == 2 {
      NumberOfFour(values[0], values[1], values[2], 0);
      assert values == [values[0], values[1], values[2]];
      assert Encode(data)[..3] == Symbols(values);
    }
  }

  /** The URL-safe form is the padded one without its padding, with '-' for '+' and '_' for '/'. */
  lemma UrlIsTranslated(data: seq<byte>)
    ensures
      var text, url := Encode(data), EncodeUrl(data);
      && |url| <= |text| && (forall i :: |url| <= i < |text| ==> text[i] == PAD)
      && (forall i :: 0 <= i < |url| ==>
        text[i] != PAD && url[i] == if text[i] == '+' then '-' else if text[i] == '/' then '_' else text[i])
  {
    UrlTranslation(Sextets(data), Missing(|Sextets(data)|));
    SymbolsAreStandard(Sextets(data));
  }
}
