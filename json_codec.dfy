/**
 * The textual snapshot format of a game-state record: a JSON-like text
 * `{"key":value,...}` whose values are integers, quoted strings and
 * arrays of quoted strings. `Encode` and `Decode` stand in for the host's
 * `JSON.stringify` and `JSON.parse` on the records the game stores; the
 * property the save system relies on, `Decode(Encode(m)) == Some(m)`, is
 * proved here (LemmaRoundTrip) rather than assumed.
 */
module Json {

  import opened Wrappers
  import opened KeyOrder

  /** The values a game-state variable can hold. */
  datatype Value = IntV(n: int) | StrV(s: string) | ListV(items: seq<string>)

  /** A game-state record: variable name to value. */
  type Record = map<string, Value>

  /** `t` is what is left of `s` once a non-empty prefix has been consumed. */
  predicate ProperSuffix(t: string, s: string)
  {
    |t| < |s| && t == s[|s| - |t|..]
  }

  lemma LemmaProperSuffixTransitive(u: string, t: string, s: string)
    requires ProperSuffix(u, t) && ProperSuffix(t, s)
    ensures ProperSuffix(u, s)
  {
    assert s[|s| - |t|..][|t| - |u|..] == s[|s| - |u|..];
  }

  lemma LemmaAssoc(a: string, b: string, c: string)
    ensures a + b + c == a + (b + c)
  {
  }

  /** Regrouping a text made of an opening, a body, a closing and the text that follows. */
  lemma LemmaRegroup(open: string, body: string, close: string, rest: string)
    ensures open + body + close + rest == open + (body + close + rest)
  {
    LemmaAssoc(open, body, close);
    LemmaAssoc(open + body, close, rest);
    LemmaAssoc(open, body + close, rest);
    LemmaAssoc(body, close, rest);
  }

  // ---------------------------------------------------------------------
  // Integers

  predicate IsDigit(c: char) { '0' <= c <= '9' }

  predicate AllDigits(s: string) { forall i :: 0 <= i < |s| ==> IsDigit(s[i]) }

  /** The text can not continue a number: it is empty or starts with a non-digit. */
  predicate Delimited(rest: string) { rest == [] || !IsDigit(rest[0]) }

  function DigitChar(d: nat): (c: char)
    requires d < 10
    ensures IsDigit(c) && c as int - '0' as int == d
  {
    ('0' as int + d) as char
  }

  /** A digit string without a leading zero, as JSON writes numbers. */
  predicate NoLeadingZero(d: string)
  {
    |d| == 1 || (d != [] && d[0] != '0')
  }

  /** Decimal notation of `n`, most significant digit first, no leading zeros. */
  function ShowNat(n: nat): (r: string)
    ensures r != [] && AllDigits(r) && NoLeadingZero(r)
    ensures n != 0 ==> r[0] != '0'
    decreases n
  {
    if n < 10 then [DigitChar(n)] else ShowNat(n / 10) + [DigitChar(n % 10)]
  }

  /** The number a string of decimal digits denotes. */
  function DigitsValue(ds: string): nat
    requires AllDigits(ds)
  {
    if ds == [] then 0
    else DigitsValue(ds[..|ds| - 1]) * 10 + (ds[|ds| - 1] as int - '0' as int)
  }

  lemma {:induction false} LemmaShowNatValue(n: nat)
    ensures DigitsValue(ShowNat(n)) == n
    decreases n
  {
    if n >= 10 {
      var r := ShowNat(n);
      assert r[..|r| - 1] == ShowNat(n / 10);
      LemmaShowNatValue(n / 10);
    }
  }

  /** Splits `s` into its longest prefix of digits and the rest. */
  function SpanDigits(s: string): (r: (string, string))
    ensures r.0 + r.1 == s
    ensures AllDigits(r.0) && Delimited(r.1)
  {
    if s != [] && IsDigit(s[0]) then
      var r' := SpanDigits(s[1..]);
      LemmaAssoc([s[0]], r'.0, r'.1);
      assert [s[0]] + s[1..] == s;
      ([s[0]] + r'.0, r'.1)
    else ([], s)
  }

  lemma {:induction false} LemmaSpanDigits(d: string, rest: string)
    requires AllDigits(d) && Delimited(rest)
    ensures SpanDigits(d + rest) == (d, rest)
    decreases |d|
  {
    var s := d + rest;
    if d != [] {
      assert s[0] == d[0] && IsDigit(s[0]);
      assert s[1..] == d[1..] + rest;
      LemmaSpanDigits(d[1..], rest);
      assert SpanDigits(s) == ([d[0]] + d[1..], rest);
      assert [d[0]] + d[1..] == d;
    } else {
      assert s == rest;
    }
  }

  function EncodeInt(n: int): string
  {
    if n < 0 then "-" + ShowNat(-n) else ShowNat(n)
  }

  /**
   * Reads a non-empty run of decimal digits from the front of `s`; like
   * JSON, refuses a leading zero followed by more digits.
   */
  function ParseNat(s: string): (r: Option<(nat, string)>)
    ensures r.Some? ==> |r.value.1| < |s|
  {
    var span := SpanDigits(s);
    if span.0 == [] || !NoLeadingZero(span.0) then None
    else Some((DigitsValue(span.0), span.1))
  }

  /** Reads an optionally negative decimal integer from the front of `s`. */
  function ParseInt(s: string): (r: Option<(int, string)>)
    ensures r.Some? ==> |r.value.1| < |s|
  {
    if s != [] && s[0] == '-' then
      match ParseNat(s[1..])
      case None => None
      case Some((n, rest)) => Some((-(n as int), rest))
    else
      match ParseNat(s)
      case None => None
      case Some((n, rest)) => Some((n, rest))
  }

  /** A zero followed by more digits does not read as a number. */
  lemma LemmaLeadingZeroRejected(s: string)
    requires |s| >= 2 && s[0] == '0' && IsDigit(s[1])
    ensures ParseNat(s) == None
  {
    assert SpanDigits(s[1..]).0 != [];
    assert SpanDigits(s).0 == [s[0]] + SpanDigits(s[1..]).0;
  }

  lemma LemmaParseNat(d: string, rest: string)
    requires NoLeadingZero(d) && AllDigits(d) && Delimited(rest)
    ensures ParseNat(d + rest) == Some((DigitsValue(d), rest))
  {
    LemmaSpanDigits(d, rest);
  }

  /** A minus sign followed by a natural number reads as its negation. */
  lemma LemmaParseMinus(u: string, n: nat, rest: string)
    requires ParseNat(u) == Some((n, rest))
    ensures ParseInt("-" + u) == Some((-(n as int), rest))
  {
    assert ("-" + u)[0] == '-' && ("-" + u)[1..] == u;
  }

  lemma LemmaParseNonNegative(d: string, rest: string)
    requires NoLeadingZero(d) && AllDigits(d) && Delimited(rest)
    ensures ParseInt(d + rest) == Some((DigitsValue(d) as int, rest))
  {
    LemmaParseNat(d, rest);
    assert (d + rest)[0] == d[0];
  }

  lemma LemmaParseNegative(d: string, rest: string)
    requires NoLeadingZero(d) && AllDigits(d) && Delimited(rest)
    ensures ParseInt("-" + (d + rest)) == Some((-(DigitsValue(d) as int), rest))
  {
    LemmaParseNat(d, rest);
    LemmaParseMinus(d + rest, DigitsValue(d), rest);
  }

  lemma LemmaNegativeRoundTrip(n: int, rest: string)
    requires n < 0 && Delimited(rest)
    ensures ParseInt(EncodeInt(n) + rest) == Some((n, rest))
  {
    var d := ShowNat(-n);
    LemmaShowNatValue(-n);
    LemmaParseNegative(d, rest);
    LemmaAssoc("-", d, rest);
  }

  lemma LemmaIntRoundTrip(n: int, rest: string)
    requires Delimited(rest)
    ensures ParseInt(EncodeInt(n) + rest) == Some((n, rest))
  {
    if n < 0 {
      LemmaNegativeRoundTrip(n, rest);
    } else {
      LemmaShowNatValue(n);
      LemmaParseNonNegative(ShowNat(n), rest);
    }
  }

  // ---------------------------------------------------------------------
  // Strings

  /** Lower-case hexadecimal digit of `d`. */
  function HexDigit(d: nat): char
    requires d < 16
  {
    if d < 10 then DigitChar(d) else ('a' as int + d - 10) as char
  }

  /** The value of a hexadecimal digit of either case. */
  function HexValue(c: char): (r: Option<nat>)
    ensures r.Some? ==> r.value < 16
  {
    if '0' <= c <= '9' then Some(c as int - '0' as int)
    else if 'a' <= c <= 'f' then Some(c as int - 'a' as int + 10)
    else if 'A' <= c <= 'F' then Some(c as int - 'A' as int + 10)
    else None
  }

  lemma LemmaHexDigit(d: nat)
    requires d < 16
    ensures HexValue(HexDigit(d)) == Some(d)
  {
  }

  /** The number written by the hexadecimal digits `h`, most significant first. */
  function HexNumber(h: string): (r: Option<nat>)
    ensures h == [] ==> r == Some(0)
    decreases |h|
  {
    if h == [] then Some(0)
    else
      match HexNumber(h[..|h| - 1])
      case None => None
      case Some(high) =>
        match HexValue(h[|h| - 1])
        case None => None
        case Some(d) => Some(high * 16 + d)
  }

  /** A code that is a character on its own (not half of a surrogate pair). */
  predicate IsScalar(code: nat)
  {
    code < 0xD800 || 0xE000 <= code < 0x11_0000
  }

  /**
   * How one character is written inside a quoted string: the quote, the
   * backslash and the control characters are escaped, the short forms
   * where JSON has them and `\u00XX` for the other control characters.
   */
  function EscapeChar(c: char): (r: string)
    ensures r != [] && r[0] != '"'
  {
    if c == '"' then ['\\', '"']
    else if c == '\\' then ['\\', '\\']
    else if c as int == 8 then ['\\', 'b']
    else if c as int == 12 then ['\\', 'f']
    else if c == '\n' then ['\\', 'n']
    else if c == '\r' then ['\\', 'r']
    else if c == '\t' then ['\\', 't']
    else if c < ' ' then ['\\', 'u', '0', '0', HexDigit(c as int / 16), HexDigit(c as int % 16)]
    else [c]
  }

  function Escape(s: string): string
  {
    if s == [] then [] else EscapeChar(s[0]) + Escape(s[1..])
  }

  function Quote(s: string): string
  {
    "\"" + Escape(s) + "\""
  }

  /** The two-character escapes: the character after the backslash, and what it stands for. */
  const ShortEscapes: map<char, char> :=
    map['"' := '"', '\\' := '\\', '/' := '/', 'b' := 8 as char, 'f' := 12 as char,
        'n' := '\n', 'r' := '\r', 't' := '\t']

  /**
   * Reads one character of a quoted string's body: a character other than
   * the quote, the backslash and the control characters, or an escape.
   */
  function ParseChar(s: string): (r: Option<(char, string)>)
    ensures r.Some? ==> |r.value.1| < |s|
  {
    if s == [] || s[0] == '"' || s[0] < ' ' then None
    else if s[0] != '\\' then Some((s[0], s[1..]))
    else if |s| >= 2 && s[1] in ShortEscapes then Some((ShortEscapes[s[1]], s[2..]))
    else if |s| >= 6 && s[1] == 'u' then
      match HexNumber(s[2..6])
      case None => None
      case Some(code) => if IsScalar(code) then Some((code as char, s[6..])) else None
    else None
  }

  /** Reads the body of a quoted string up to and including its closing quote. */
  function ParseStringBody(s: string): (r: Option<(string, string)>)
    ensures r.Some? ==> |r.value.1| < |s|
    decreases |s|
  {
    if s == [] then None
    else if s[0] == '"' then Some(([], s[1..]))
    else
      match ParseChar(s)
      case None => None
      case Some((c, rest)) =>
        match ParseStringBody(rest)
        case None => None
        case Some((t, rest')) => Some(([c] + t, rest'))
  }

  /** Reads a quoted string from the front of `s`. */
  function ParseString(s: string): (r: Option<(string, string)>)
    ensures r.Some? ==> |r.value.1| < |s|
  {
    if s != [] && s[0] == '"' then ParseStringBody(s[1..]) else None
  }

  /** The text has no control character in it. */
  predicate NoControl(s: string)
  {
    forall i :: 0 <= i < |s| ==> s[i] >= ' '
  }

  lemma LemmaEscapeCharNoControl(c: char)
    ensures NoControl(EscapeChar(c))
  {
    if c < ' ' && c as int != 8 && c as int != 12 && c != '\n' && c != '\r' && c != '\t' {
      assert HexDigit(c as int / 16) >= '0' && HexDigit(c as int % 16) >= '0';
    }
  }

  /** The written body of a string never holds a control character raw. */
  lemma {:induction false} LemmaEscapeNoControl(t: string)
    ensures NoControl(Escape(t))
    decreases |t|
  {
    if t != [] {
      LemmaEscapeCharNoControl(t[0]);
      LemmaEscapeNoControl(t[1..]);
      var a, b := EscapeChar(t[0]), Escape(t[1..]);
      assert forall i :: 0 <= i < |a + b| ==> (a + b)[i] == if i < |a| then a[i] else b[i - |a|];
    }
  }

  /** A control character written raw inside a string does not read. */
  lemma LemmaRawControlRejected(c: char, rest: string)
    requires c < ' '
    ensures ParseStringBody([c] + rest) == None
  {
    assert ([c] + rest)[0] == c;
  }

  lemma LemmaControlCharRoundTrip(c: char, tail: string)
    requires c < ' '
    ensures ParseChar(['\\', 'u', '0', '0', HexDigit(c as int / 16), HexDigit(c as int % 16)] + tail)
         == Some((c, tail))
  {
    var hi, lo := c as int / 16, c as int % 16;
    var h := ['0', '0', HexDigit(hi), HexDigit(lo)];
    var s := ['\\', 'u'] + h + tail;
    LemmaHexDigit(0);
    LemmaHexDigit(hi);
    LemmaHexDigit(lo);
    assert h[..1] == ['0'] && h[..1][..0] == [];
    assert HexNumber(h[..1]) == Some(0);
    assert h[..2][..1] == h[..1] && HexNumber(h[..2]) == Some(0);
    assert h[..3][..2] == h[..2] && HexNumber(h[..3]) == Some(hi);
    assert h[..3] == h[..|h| - 1];
    assert HexNumber(h) == Some(c as int);
    assert s[1] !in ShortEscapes;
    assert s[2..6] == h && s[6..] == tail;
  }

  lemma LemmaCharRoundTrip(c: char, tail: string)
    ensures ParseChar(EscapeChar(c) + tail) == Some((c, tail))
  {
    var s := EscapeChar(c) + tail;
    if c < ' ' && c as int != 8 && c as int != 12 && c != '\n' && c != '\r' && c != '\t' {
      LemmaControlCharRoundTrip(c, tail);
    } else if |EscapeChar(c)| == 2 {
      assert s[0] == '\\' && s[2..] == tail;
      assert c as int == 8 ==> c == 8 as char;
      assert c as int == 12 ==> c == 12 as char;
    } else {
      assert s[0] == c && s[1..] == tail;
    }
  }

  /** One written character, then the rest of the body. */
  lemma LemmaStringBodyStep(c: char, tail: string)
    ensures ParseStringBody(EscapeChar(c) + tail)
         == match ParseStringBody(tail)
            case None => None
            case Some((t, rest)) => Some(([c] + t, rest))
  {
    LemmaCharRoundTrip(c, tail);
    assert (EscapeChar(c) + tail)[0] == EscapeChar(c)[0];
  }

  lemma {:induction false} LemmaStringBodyRoundTrip(t: string, rest: string)
    ensures ParseStringBody(Escape(t) + "\"" + rest) == Some((t, rest))
    decreases |t|
  {
    if t != [] {
      var tail := Escape(t[1..]) + "\"" + rest;
      assert Escape(t) + "\"" + rest == EscapeChar(t[0]) + tail;
      LemmaStringBodyStep(t[0], tail);
      LemmaStringBodyRoundTrip(t[1..], rest);
      assert [t[0]] + t[1..] == t;
    }
  }

  lemma LemmaStringRoundTrip(t: string, rest: string)
    ensures ParseString(Quote(t) + rest) == Some((t, rest))
  {
    assert (Quote(t) + rest)[1..] == Escape(t) + "\"" + rest;
    LemmaStringBodyRoundTrip(t, rest);
  }

  // ---------------------------------------------------------------------
  // Arrays of strings

  /** The items of a non-empty array, separated by commas. */
  function EncodeItems(xs: seq<string>): (r: string)
    requires xs != []
    ensures r != [] && r[0] == '"'
  {
    if |xs| == 1 then Quote(xs[0]) else Quote(xs[0]) + "," + EncodeItems(xs[1..])
  }

  function EncodeList(xs: seq<string>): string
  {
    if xs == [] then "[]" else "[" + EncodeItems(xs) + "]"
  }

  /** Reads one or more comma-separated quoted strings and the closing bracket. */
  function ParseItems(s: string): (r: Option<(seq<string>, string)>)
    ensures r.Some? ==> |r.value.0| > 0 && |r.value.1| < |s|
    decreases |s|
  {
    match ParseString(s)
    case None => None
    case Some((x, rest)) =>
      if rest != [] && rest[0] == ']' then Some(([x], rest[1..]))
      else if rest != [] && rest[0] == ',' then
        match ParseItems(rest[1..])
        case None => None
        case Some((xs, rest')) => Some(([x] + xs, rest'))
      else None
  }

  /** Reads an array of quoted strings from the front of `s`. */
  function ParseList(s: string): (r: Option<(seq<string>, string)>)
    ensures r.Some? ==> |r.value.1| < |s|
  {
    if s != [] && s[0] == '[' then
      if |s| >= 2 && s[1] == ']' then Some(([], s[2..])) else ParseItems(s[1..])
    else None
  }

  lemma LemmaLastItem(x: string, rest: string)
    ensures ParseItems(Quote(x) + ("]" + rest)) == Some(([x], rest))
  {
    LemmaStringRoundTrip(x, "]" + rest);
    assert ("]" + rest)[0] == ']' && ("]" + rest)[1..] == rest;
  }

  lemma LemmaNextItem(x: string, tail: string)
    ensures ParseItems(Quote(x) + ("," + tail))
         == match ParseItems(tail)
            case None => None
            case Some((xs, rest)) => Some(([x] + xs, rest))
  {
    LemmaStringRoundTrip(x, "," + tail);
    assert ("," + tail)[0] == ',' && ("," + tail)[1..] == tail;
  }

  lemma {:induction false} LemmaItemsRoundTrip(xs: seq<string>, rest: string)
    requires xs != []
    ensures ParseItems(EncodeItems(xs) + "]" + rest) == Some((xs, rest))
    decreases |xs|
  {
    if |xs| == 1 {
      assert EncodeItems(xs) + "]" + rest == Quote(xs[0]) + ("]" + rest);
      LemmaLastItem(xs[0], rest);
      assert xs == [xs[0]];
    } else {
      var tail := EncodeItems(xs[1..]) + "]" + rest;
      LemmaRegroup(Quote(xs[0]) + ",", EncodeItems(xs[1..]), "]", rest);
      LemmaAssoc(Quote(xs[0]), ",", tail);
      LemmaNextItem(xs[0], tail);
      LemmaItemsRoundTrip(xs[1..], rest);
      assert [xs[0]] + xs[1..] == xs;
    }
  }

  /** An opening bracket followed by items reads as an array. */
  lemma LemmaParseBracketed(u: string, xs: seq<string>, rest: string)
    requires u != [] && u[0] == '"' && ParseItems(u) == Some((xs, rest))
    ensures ParseList("[" + u) == Some((xs, rest))
  {
    assert ("[" + u)[1..] == u && ("[" + u)[1] == u[0];
  }

  lemma LemmaListRoundTrip(xs: seq<string>, rest: string)
    ensures ParseList(EncodeList(xs) + rest) == Some((xs, rest))
  {
    if xs == [] {
      var t := EncodeList(xs) + rest;
      assert t == ['[', ']'] + rest;
      assert t[2..] == rest;
    } else {
      var items := EncodeItems(xs);
      LemmaRegroup("[", items, "]", rest);
      LemmaItemsRoundTrip(xs, rest);
      assert (items + "]" + rest)[0] == items[0];
      LemmaParseBracketed(items + "]" + rest, xs, rest);
    }
  }

  // ---------------------------------------------------------------------
  // Values

  function EncodeValue(v: Value): string
  {
    match v
    case IntV(n) => EncodeInt(n)
    case StrV(s) => Quote(s)
    case ListV(xs) => EncodeList(xs)
  }

  /** Reads one value from the front of `s`; its first character says which kind. */
  function ParseValue(s: string): (r: Option<(Value, string)>)
    ensures r.Some? ==> |r.value.1| < |s|
  {
    if s == [] then None
    else if s[0] == '"' then
      match ParseString(s)
      case None => None
      case Some((t, rest)) => Some((StrV(t), rest))
    else if s[0] == '[' then
      match ParseList(s)
      case None => None
      case Some((xs, rest)) => Some((ListV(xs), rest))
    else
      match ParseInt(s)
      case None => None
      case Some((n, rest)) => Some((IntV(n), rest))
  }

  lemma LemmaValueRoundTrip(v: Value, rest: string)
    requires Delimited(rest)
    ensures ParseValue(EncodeValue(v) + rest) == Some((v, rest))
  {
    match v
    case IntV(n) =>
      LemmaIntRoundTrip(n, rest);
      assert (EncodeValue(v) + rest)[0] == EncodeValue(v)[0];
    case StrV(t) =>
      LemmaStringRoundTrip(t, rest);
    case ListV(xs) =>
      LemmaListRoundTrip(xs, rest);
  }

  // ---------------------------------------------------------------------
  // Records

  function EncodeEntry(k: string, v: Value): string
  {
    Quote(k) + ":" + EncodeValue(v)
  }

  /** The entries of `m` for the non-empty key list `ks`, separated by commas. */
  function EncodeMembers(ks: seq<string>, m: Record): (r: string)
    requires ks != [] && forall k :: k in ks ==> k in m
    ensures r != [] && r[0] == '"'
  {
    if |ks| == 1 then EncodeEntry(ks[0], m[ks[0]])
    else EncodeEntry(ks[0], m[ks[0]]) + "," + EncodeMembers(ks[1..], m)
  }

  /** The text of a record: its entries in increasing key order, in braces. */
  function Encode(m: Record): (r: string)
    ensures |r| >= 2 && r[0] == '{' && r[|r| - 1] == '}'
  {
    var ks := SortedKeys(m.Keys);
    if ks == [] then "{}" else "{" + EncodeMembers(ks, m) + "}"
  }

  /** Reads one `"key":value` entry from the front of `s`. */
  function ParseEntry(s: string): (r: Option<(string, Value, string)>)
    ensures r.Some? ==> |r.value.2| < |s|
  {
    match ParseString(s)
    case None => None
    case Some((k, rest)) =>
      if rest == [] || rest[0] != ':' then None
      else
        match ParseValue(rest[1..])
        case None => None
        case Some((v, rest')) => Some((k, v, rest'))
  }

  /**
   * Reads one or more comma-separated entries and the closing brace, adding
   * each to `acc`; a repeated key keeps its last value.
   */
  function ParseMembers(s: string, acc: Record): (r: Option<(Record, string)>)
    ensures r.Some? ==> acc.Keys <= r.value.0.Keys && |r.value.1| < |s|
    decreases |s|
  {
    match ParseEntry(s)
    case None => None
    case Some((k, v, rest)) =>
      if rest != [] && rest[0] == '}' then Some((acc[k := v], rest[1..]))
      else if rest != [] && rest[0] == ',' then ParseMembers(rest[1..], acc[k := v])
      else None
  }

  /** Parses a whole text as a record; anything else, trailing text included, fails. */
  function Decode(s: string): (r: Option<Record>)
    ensures s == [] ==> r == None
  {
    if s == [] || s[0] != '{' then None
    else if |s| >= 2 && s[1] == '}' then
      if |s| == 2 then Some(map[]) else None
    else
      match ParseMembers(s[1..], map[])
      case None => None
      case Some((m, rest)) => if rest == [] then Some(m) else None
  }

  /** `acc` updated, key by key in the order of `ks`, with the entries of `m`. */
  function Override(acc: Record, ks: seq<string>, m: Record): Record
    requires forall k :: k in ks ==> k in m
    decreases |ks|
  {
    if ks == [] then acc else Override(acc[ks[0] := m[ks[0]]], ks[1..], m)
  }

  lemma {:induction false} LemmaOverride(acc: Record, ks: seq<string>, m: Record)
    requires forall k :: k in ks ==> k in m
    ensures forall k :: k in Override(acc, ks, m) <==> k in acc || k in ks
    ensures forall k :: k in ks ==> Override(acc, ks, m)[k] == m[k]
    ensures forall k :: k in acc && k !in ks ==> Override(acc, ks, m)[k] == acc[k]
    decreases |ks|
  {
    if ks != [] {
      LemmaOverride(acc[ks[0] := m[ks[0]]], ks[1..], m);
      assert forall k :: k in ks <==> k == ks[0] || k in ks[1..] by {
        assert ks == [ks[0]] + ks[1..];
      }
    }
  }

  /** An entry is read as its key, read by `ParseString`, followed by a colon and a value. */
  lemma LemmaParseEntry(key: string, k: string, text: string, v: Value, after: string)
    requires ParseString(key + (":" + text + after)) == Some((k, ":" + text + after))
    requires ParseValue(text + after) == Some((v, after))
    ensures ParseEntry(key + ":" + text + after) == Some((k, v, after))
  {
    var tail := ":" + text + after;
    assert key + ":" + text + after == key + tail;
    assert tail[0] == ':' && tail[1..] == text + after;
  }

  lemma LemmaEntryRoundTrip(k: string, v: Value, after: string)
    requires Delimited(after)
    ensures ParseEntry(EncodeEntry(k, v) + after) == Some((k, v, after))
  {
    LemmaValueRoundTrip(v, after);
    LemmaStringRoundTrip(k, ":" + EncodeValue(v) + after);
    LemmaParseEntry(Quote(k), k, EncodeValue(v), v, after);
  }

  lemma LemmaLastMember(k: string, v: Value, acc: Record, rest: string)
    ensures ParseMembers(EncodeEntry(k, v) + ("}" + rest), acc) == Some((acc[k := v], rest))
  {
    var after := "}" + rest;
    LemmaEntryRoundTrip(k, v, after);
    assert after[0] == '}' && after[1..] == rest;
  }

  lemma LemmaNextMember(k: string, v: Value, acc: Record, tail: string)
    ensures ParseMembers(EncodeEntry(k, v) + ("," + tail), acc) == ParseMembers(tail, acc[k := v])
  {
    var after := "," + tail;
    LemmaEntryRoundTrip(k, v, after);
    assert after[0] == ',' && after[1..] == tail;
  }

  lemma LemmaMembersText(ks: seq<string>, m: Record, rest: string)
    requires |ks| > 1 && forall k :: k in ks ==> k in m
    ensures EncodeMembers(ks, m) + "}" + rest
         == EncodeEntry(ks[0], m[ks[0]]) + ("," + (EncodeMembers(ks[1..], m) + "}" + rest))
  {
  }

  lemma {:induction false} LemmaMembersRoundTrip(ks: seq<string>, m: Record, acc: Record, rest: string)
    requires ks != [] && forall k :: k in ks ==> k in m
    ensures ParseMembers(EncodeMembers(ks, m) + "}" + rest, acc) == Some((Override(acc, ks, m), rest))
    decreases |ks|
  {
    var k, v := ks[0], m[ks[0]];
    if |ks| == 1 {
      assert EncodeMembers(ks, m) + "}" + rest == EncodeEntry(k, v) + ("}" + rest);
      LemmaLastMember(k, v, acc, rest);
      assert Override(acc, ks, m) == Override(acc[k := v], [], m);
    } else {
      var tail := EncodeMembers(ks[1..], m) + "}" + rest;
      LemmaMembersText(ks, m, rest);
      LemmaNextMember(k, v, acc, tail);
      LemmaMembersRoundTrip(ks[1..], m, acc[k := v], rest);
      assert Override(acc, ks, m) == Override(acc[k := v], ks[1..], m);
    }
  }

  lemma LemmaDecodeMembers(body: string, m: Record)
    requires body != [] && body[0] == '"'
    requires ParseMembers(body, map[]) == Some((m, []))
    ensures Decode("{" + body) == Some(m)
  {
    var s := "{" + body;
    assert s[0] == '{' && s[1] == '"' && s[1..] == body;
  }

  lemma LemmaEmptyRoundTrip(m: Record)
    requires SortedKeys(m.Keys) == []
    ensures Decode(Encode(m)) == Some(m)
  {
    assert m.Keys == {};
    assert m == map[];
  }

  lemma LemmaOverrideAll(ks: seq<string>, m: Record)
    requires forall k :: k in ks <==> k in m
    ensures Override(map[], ks, m) == m
  {
    LemmaOverride(map[], ks, m);
  }

  lemma LemmaNonEmptyRoundTrip(m: Record)
    requires SortedKeys(m.Keys) != []
    ensures Decode(Encode(m)) == Some(m)
  {
    var ks := SortedKeys(m.Keys);
    var members := EncodeMembers(ks, m);
    var body := members + "}";
    assert Encode(m) == "{" + body;
    assert body == members + "}" + [];
    LemmaMembersRoundTrip(ks, m, map[], []);
    LemmaOverrideAll(ks, m);
    LemmaDecodeMembers(body, m);
  }

  /** Decoding the text of a record gives back that record. */
  lemma LemmaRoundTrip(m: Record)
    ensures Decode(Encode(m)) == Some(m)
  {
    if SortedKeys(m.Keys) == [] {
      LemmaEmptyRoundTrip(m);
    } else {
      LemmaNonEmptyRoundTrip(m);
    }
  }

  // ---------------------------------------------------------------------
  // Every parser consumes a prefix of its input, and a text that decodes
  // ends with the closing brace: a snapshot cut short does not decode.

  lemma LemmaIntSuffix(s: string)
    ensures ParseInt(s).Some? ==> ProperSuffix(ParseInt(s).value.1, s)
  {
    if s != [] && s[0] == '-' {
      var (d, rest) := SpanDigits(s[1..]);
      assert s == [s[0]] + d + rest;
    } else {
      var (d, rest) := SpanDigits(s);
      assert s == d + rest;
    }
  }

  lemma LemmaCharSuffix(s: string)
    ensures ParseChar(s).Some? ==> ProperSuffix(ParseChar(s).value.1, s)
  {
  }

  lemma {:induction false} LemmaStringBodySuffix(s: string)
    ensures ParseStringBody(s).Some? ==> ProperSuffix(ParseStringBody(s).value.1, s)
    decreases |s|
  {
    if s != [] && s[0] != '"' {
      LemmaCharSuffix(s);
      match ParseChar(s)
      case None =>
      case Some((c, rest)) =>
        LemmaStringBodySuffix(rest);
        if ParseStringBody(rest).Some? {
          LemmaProperSuffixTransitive(ParseStringBody(rest).value.1, rest, s);
        }
    }
  }

  lemma LemmaStringSuffix(s: string)
    ensures ParseString(s).Some? ==> ProperSuffix(ParseString(s).value.1, s)
  {
    if s != [] {
      LemmaStringBodySuffix(s[1..]);
    }
  }

  lemma {:induction false} LemmaItemsSuffix(s: string)
    ensures ParseItems(s).Some? ==> ProperSuffix(ParseItems(s).value.1, s)
    decreases |s|
  {
    LemmaStringSuffix(s);
    match ParseString(s)
    case None =>
    case Some((x, rest)) =>
      if rest != [] && rest[0] == ',' {
        LemmaItemsSuffix(rest[1..]);
        if ParseItems(rest[1..]).Some? {
          LemmaProperSuffixTransitive(ParseItems(rest[1..]).value.1, rest[1..], rest);
          LemmaProperSuffixTransitive(ParseItems(rest[1..]).value.1, rest, s);
        }
      } else if rest != [] && rest[0] == ']' {
        LemmaProperSuffixTransitive(rest[1..], rest, s);
      }
  }

  lemma LemmaListSuffix(s: string)
    ensures ParseList(s).Some? ==> ProperSuffix(ParseList(s).value.1, s)
  {
    if s != [] && s[0] == '[' && !(|s| >= 2 && s[1] == ']') {
      LemmaItemsSuffix(s[1..]);
      if ParseItems(s[1..]).Some? {
        LemmaProperSuffixTransitive(ParseItems(s[1..]).value.1, s[1..], s);
      }
    }
  }

  lemma LemmaValueSuffix(s: string)
    ensures ParseValue(s).Some? ==> ProperSuffix(ParseValue(s).value.1, s)
  {
    LemmaStringSuffix(s);
    LemmaListSuffix(s);
    LemmaIntSuffix(s);
  }

  lemma LemmaEntrySuffix(s: string)
    ensures ParseEntry(s).Some? ==> ProperSuffix(ParseEntry(s).value.2, s)
  {
    LemmaStringSuffix(s);
    match ParseString(s)
    case None =>
    case Some((k, rest)) =>
      if rest != [] && rest[0] == ':' {
        LemmaValueSuffix(rest[1..]);
        if ParseValue(rest[1..]).Some? {
          LemmaProperSuffixTransitive(ParseValue(rest[1..]).value.1, rest[1..], rest);
          LemmaProperSuffixTransitive(ParseValue(rest[1..]).value.1, rest, s);
        }
      }
  }

  /** The text left over by `ParseMembers` follows a closing brace in `s`. */
  predicate EndsWithBrace(r: Option<(Record, string)>, s: string)
  {
    r.Some? ==> ProperSuffix(r.value.1, s) && s[|s| - |r.value.1| - 1] == '}'
  }

  /** After the last entry: the closing brace itself. */
  lemma LemmaBraceAfterLast(s: string, acc: Record, k: string, v: Value, rest: string)
    requires ParseEntry(s) == Some((k, v, rest)) && ProperSuffix(rest, s)
    requires rest != [] && rest[0] == '}'
    ensures EndsWithBrace(ParseMembers(s, acc), s)
  {
    LemmaProperSuffixTransitive(rest[1..], rest, s);
  }

  /** After an entry and a comma: the brace that ends the entries that follow. */
  lemma LemmaBraceAfterNext(s: string, acc: Record, k: string, v: Value, rest: string)
    requires ParseEntry(s) == Some((k, v, rest)) && ProperSuffix(rest, s)
    requires rest != [] && rest[0] == ','
    requires EndsWithBrace(ParseMembers(rest[1..], acc[k := v]), rest[1..])
    ensures EndsWithBrace(ParseMembers(s, acc), s)
  {
    var tail := rest[1..];
    LemmaProperSuffixTransitive(tail, rest, s);
    if ParseMembers(tail, acc[k := v]).Some? {
      LemmaProperSuffixTransitive(ParseMembers(tail, acc[k := v]).value.1, tail, s);
    }
  }

  /** The entries end with a closing brace, right before the text left over. */
  lemma {:induction false} LemmaMembersEndWithBrace(s: string, acc: Record)
    ensures EndsWithBrace(ParseMembers(s, acc), s)
    decreases |s|
  {
    LemmaEntrySuffix(s);
    match ParseEntry(s)
    case None =>
    case Some((k, v, rest)) =>
      if rest != [] && rest[0] == '}' {
        LemmaBraceAfterLast(s, acc, k, v, rest);
      } else if rest != [] && rest[0] == ',' {
        LemmaMembersEndWithBrace(rest[1..], acc[k := v]);
        LemmaBraceAfterNext(s, acc, k, v, rest);
      }
  }

  /** Only a text ending with a closing brace decodes. */
  lemma LemmaDecodedEndsWithBrace(s: string)
    requires Decode(s).Some?
    ensures s[|s| - 1] == '}'
  {
    if !(|s| >= 2 && s[1] == '}') {
      LemmaMembersEndWithBrace(s[1..], map[]);
    }
  }

  lemma LemmaValueLastChar(v: Value)
    ensures EncodeValue(v) != [] && EncodeValue(v)[|EncodeValue(v)| - 1] != '}'
  {
    match v
    case IntV(n) =>
      var d := if n < 0 then ShowNat(-n) else ShowNat(n);
      assert EncodeValue(v)[|EncodeValue(v)| - 1] == d[|d| - 1];
    case StrV(t) =>
    case ListV(xs) =>
  }

  lemma {:induction false} LemmaMembersLastChar(ks: seq<string>, m: Record)
    requires ks != [] && forall k :: k in ks ==> k in m
    ensures EncodeMembers(ks, m)[|EncodeMembers(ks, m)| - 1] != '}'
    decreases |ks|
  {
    LemmaValueLastChar(m[ks[0]]);
    if |ks| > 1 {
      LemmaMembersLastChar(ks[1..], m);
    }
  }

  /** The text of a record with its last character cut off does not decode. */
  lemma LemmaCutShortRejected(m: Record)
    ensures Decode(Encode(m)[..|Encode(m)| - 1]) == None
  {
    var t := Encode(m)[..|Encode(m)| - 1];
    var ks := SortedKeys(m.Keys);
    if ks != [] {
      assert t == "{" + EncodeMembers(ks, m);
      LemmaMembersLastChar(ks, m);
      if Decode(t).Some? {
        LemmaDecodedEndsWithBrace(t);
      }
    } else {
      assert t == "{";
    }
  }
}
