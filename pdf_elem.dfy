/**
  * The element encoder (`render_elem`): a PDF value and its text form, following
  * section 7.3 of ISO 32000-1 (PDF 1.7) as the renderer implements it.
  */
module PdfElem {
  import opened Options
  import opened Numerals
  import Utf8

  /** A PDF value (`PDFElem`). Integers and references are unbounded here. */
  datatype Elem =
    | Null
    | Bool(b: bool)
    | Int(i: int)
    | String(s: string)
    | Name(name: string)
    | Ref(n: int)
    | Array(items: seq<Elem>)
    | Dict(entries: seq<Entry>)
    | Stream(content: string)

  /** One key/value pair of a dictionary, kept in the order given; keys need not be distinct. */
  datatype Entry = Entry(key: string, value: Elem)

  // ------------------------------------------------------------------
  // Literal strings (section 7.3.4.2 of ISO 32000-1)
  // ------------------------------------------------------------------

  /**
    * Rust's `str::replace` with a one-character pattern: every occurrence of `c`,
    * scanning left to right, becomes `sub`; the replacements are not rescanned.
    */
  function Replace(s: string, c: char, sub: string): (r: string)
    ensures c !in sub ==> c !in r
    ensures forall x :: x in r ==> x in sub || (x in s && x != c)
  {
    if s == [] then [] else (if s[0] == c then sub else [s[0]]) + Replace(s[1..], c, sub)
  }

  /** A text without `c` is left as it is. */
  lemma {:induction false} ReplaceAbsent(s: string, c: char, sub: string)
    requires c !in s
    ensures Replace(s, c, sub) == s
  {
    if s != [] {
      assert c !in s[1..] by {
        assert forall x :: x in s[1..] ==> x in s;
      }
      ReplaceAbsent(s[1..], c, sub);
      assert [s[0]] + s[1..] == s;
    }
  }

  /**
    * On one character: `c` itself becomes `sub`, any other character stays. With
    * `ReplaceAppend` this fixes `Replace` on every text, character by character, in order.
    */
  lemma ReplaceSingle(x: char, c: char, sub: string)
    ensures Replace([x], c, sub) == if x == c then sub else [x]
  {
    assert [x][1..] == [];
  }

  lemma {:induction false} ReplaceAppend(a: string, b: string, c: char, sub: string)
    ensures Replace(a + b, c, sub) == Replace(a, c, sub) + Replace(b, c, sub)
  {
    if a == [] {
      assert a + b == b;
    } else {
      assert (a + b)[0] == a[0] && (a + b)[1..] == a[1..] + b;
      ReplaceAppend(a[1..], b, c, sub);
    }
  }

  /** `escape_string`: backslash first, then the two parentheses. */
  function EscapeString(s: string): string
  {
    Replace(Replace(Replace(s, '\\', "\\\\"), '(', "\\("), ')', "\\)")
  }

  /** The escape of one character, the reference for what `EscapeString` does to it. */
  function EscapeChar(c: char): string
  {
    if c == '\\' then "\\\\" else if c == '(' then "\\(" else if c == ')' then "\\)" else [c]
  }

  /** A single left-to-right pass escaping each character on its own. */
  function EscapeEach(s: string): string
  {
    if s == [] then [] else EscapeChar(s[0]) + EscapeEach(s[1..])
  }

  /**
    * The three chained replacements equal one pass over the characters: because
    * backslashes go first, no backslash that a parenthesis escape introduces is
    * escaped a second time.
    */
  lemma {:induction false} EscapeStringSinglePass(s: string)
    ensures EscapeString(s) == EscapeEach(s)
  {
    if s != [] {
      var c, t := s[0], s[1..];
      assert s == [c] + t;
      ReplaceAppend([c], t, '\\', "\\\\");
      var r1 := Replace([c], '\\', "\\\\");
      ReplaceAppend(r1, Replace(t, '\\', "\\\\"), '(', "\\(");
      var r2 := Replace(r1, '(', "\\(");
      ReplaceAppend(r2, Replace(Replace(t, '\\', "\\\\"), '(', "\\("), ')', "\\)");
      assert Replace(r2, ')', "\\)") == EscapeChar(c);
      EscapeStringSinglePass(t);
    }
  }

  /** Escaping the parentheses before the backslash would escape the new backslashes again. */
  lemma ParenthesesFirstDoubleEscapes()
    ensures Replace(Replace(Replace("(", '(', "\\("), ')', "\\)"), '\\', "\\\\") == "\\\\("
    ensures EscapeString("(") == "\\("
  {
    assert Replace("(", '(', "\\(") == "\\(";
    assert Replace("\\(", ')', "\\)") == "\\(";
    assert Replace("\\(", '\\', "\\\\") == "\\\\(";
    assert Replace("(", '\\', "\\\\") == "(";
  }

  /**
    * Reading an escaped string body back: a backslash and the character after it
    * stand for that character, as section 7.3.4.2 of ISO 32000-1 reads `\\`, `\(` and `\)`.
    */
  function Unescape(t: string): string
  {
    if t == [] then []
    else if t[0] == '\\' && |t| >= 2 then [t[1]] + Unescape(t[2..])
    else [t[0]] + Unescape(t[1..])
  }

  lemma {:induction false} UnescapeEscapeEach(s: string)
    ensures Unescape(EscapeEach(s)) == s
  {
    if s != [] {
      var e, rest := EscapeChar(s[0]), EscapeEach(s[1..]);
      UnescapeEscapeEach(s[1..]);
      if |e| == 2 {
        assert (e + rest)[2..] == rest;
      } else {
        assert (e + rest)[1..] == rest;
      }
      assert [s[0]] + s[1..] == s;
    }
  }

  /** String escaping round-trips: the left-to-right unescape recovers the original text. */
  lemma UnescapeEscape(s: string)
    ensures Unescape(EscapeString(s)) == s
  {
    EscapeStringSinglePass(s);
    UnescapeEscapeEach(s);
  }

  /** Every parenthesis of `r` is preceded by a backslash. */
  predicate ParenthesesEscaped(r: string)
  {
    forall i :: 0 <= i < |r| && (r[i] == '(' || r[i] == ')') ==> i > 0 && r[i - 1] == '\\'
  }

  /** Every parenthesis of an escaped body is preceded by a backslash. */
  lemma EscapedParenthesesPreceded(s: string)
    ensures ParenthesesEscaped(EscapeString(s))
  {
    EscapeStringSinglePass(s);
    EscapeEachParentheses(s);
  }

  lemma {:induction false} EscapeEachParentheses(s: string)
    ensures ParenthesesEscaped(EscapeEach(s))
  {
    if s != [] {
      EscapeEachParentheses(s[1..]);
      var e, rest := EscapeChar(s[0]), EscapeEach(s[1..]);
      var r := e + rest;
      forall i | 0 <= i < |r| && (r[i] == '(' || r[i] == ')')
        ensures i > 0 && r[i - 1] == '\\'
      {
        if i >= |e| {
          var j := i - |e|;
          assert rest[j] == r[i];
          assert j > 0 && rest[j - 1] == '\\';
          assert rest[j - 1] == r[i - 1];
        } else {
          assert e[i] == r[i];
          assert i == 1 && e[0] == '\\';
          assert r[i - 1] == e[0];
        }
      }
    }
  }

  // ------------------------------------------------------------------
  // Names (section 7.3.5 of ISO 32000-1)
  // ------------------------------------------------------------------

  /** The characters `escape_name` writes as `#` and hexadecimal: outside `!`..`~`, or `#`. */
  predicate NeedsHexEscape(c: char) { c < '!' || c > '~' || c == '#' }

  /** The escape of one name character: `#` and its code point in lower-case hexadecimal, at least two digits. */
  function EscapeNameChar(c: char): string
  {
    if NeedsHexEscape(c) then "#" + LowerHex(c as int, 2) else [c]
  }

  /** `escape_name`: each character escaped on its own, the pieces joined. */
  function EscapeName(s: string): string
  {
    if s == [] then [] else EscapeNameChar(s[0]) + EscapeName(s[1..])
  }

  /** A printable character: `!`..`~`. */
  predicate IsPrintable(c: char) { '!' <= c <= '~' }

  /**
    * How one character is written: printable characters other than `#` stand for
    * themselves; every other one becomes `#` and the hexadecimal digits of its code
    * point, exactly two of them when the code point is below 256, all printable.
    */
  lemma EscapeNameCharShape(c: char)
    ensures IsPrintable(c) && c != '#' ==> EscapeNameChar(c) == [c]
    ensures NeedsHexEscape(c) ==> var e := EscapeNameChar(c);
      e[0] == '#' && ValueOf(e[1..], 16) == Some(c as int) && (|e| == 3 <==> c as int < 256)
    ensures forall i :: 0 <= i < |EscapeNameChar(c)| ==> IsPrintable(EscapeNameChar(c)[i])
  {
    if NeedsHexEscape(c) {
      var h := LowerHex(c as int, 2);
      LowerHexTwoDigits(c as int);
      assert EscapeNameChar(c)[1..] == h;
      forall i | 0 <= i < |h| ensures IsPrintable(h[i]) {
        assert DigitValue(h[i], 16).Some?;
      }
    }
  }

  /** Every character a name escape writes is printable. */
  lemma {:induction false} EscapeNamePrintable(s: string)
    ensures forall i :: 0 <= i < |EscapeName(s)| ==> IsPrintable(EscapeName(s)[i])
  {
    if s != [] {
      EscapeNameCharShape(s[0]);
      EscapeNamePrintable(s[1..]);
      var e, rest := EscapeNameChar(s[0]), EscapeName(s[1..]);
      assert forall i :: |e| <= i < |e + rest| ==> (e + rest)[i] == rest[i - |e|];
    }
  }

  /** The value of two hexadecimal digits, as a name reader takes them after `#`. */
  function HexPair(c1: char, c2: char): (r: Option<nat>)
    ensures r.Some? ==> r.value < 256
  {
    match (DigitValue(c1, 16), DigitValue(c2, 16))
    case (Some(h), Some(l)) => Some(h * 16 + l)
    case _ => None
  }

  /** Reading a name back (section 7.3.5 of ISO 32000-1): `#` and two hexadecimal digits stand for one character. */
  function DecodeName(t: string): string
  {
    if t == [] then []
    else if t[0] == '#' && |t| >= 3 && HexPair(t[1], t[2]).Some? then
      [HexPair(t[1], t[2]).value as char] + DecodeName(t[3..])
    else [t[0]] + DecodeName(t[1..])
  }

  /** A name all of whose code points are below 256: its escapes are all two digits. */
  predicate IsLatin1(s: string) { forall i :: 0 <= i < |s| ==> s[i] as int < 256 }

  lemma {:induction false} DecodeNameChar(c: char, rest: string)
    requires c as int < 256
    ensures DecodeName(EscapeNameChar(c) + rest) == [c] + DecodeName(rest)
  {
    var e := EscapeNameChar(c);
    EscapeNameCharShape(c);
    if NeedsHexEscape(c) {
      var t := e + rest;
      assert |e| == 3;
      var h := e[1..];
      assert ValueOf(h, 16) == Some(c as int);
      assert h[..1] == [h[0]];
      assert HexPair(t[1], t[2]) == Some(c as int);
      assert t[3..] == rest;
    } else {
      assert (e + rest)[1..] == rest;
    }
  }

  /** Name escaping round-trips for names whose code points are all below 256. */
  lemma {:induction false} DecodeEscapeName(s: string)
    requires IsLatin1(s)
    ensures DecodeName(EscapeName(s)) == s
  {
    if s != [] {
      DecodeNameChar(s[0], EscapeName(s[1..]));
      DecodeEscapeName(s[1..]);
      assert [s[0]] + s[1..] == s;
    }
  }

  /**
    * Above 255 the escape has more than two digits, so a reader that takes two
    * digits after `#` reads U+0100 back as U+0010 followed by `0`.
    */
  lemma WideNameEscapeMisreads()
    ensures EscapeName("\U{100}") == "#100"
    ensures DecodeName(EscapeName("\U{100}")) == "\U{10}0"
  {
    assert Digits(1, 16) == "1";
    assert Digits(16, 16) == "10";
    assert Digits(256, 16) == "100";
    assert EscapeNameChar('\U{100}') == "#100";
    assert EscapeName("\U{100}") == EscapeNameChar('\U{100}') + EscapeName([]);
    var t := "#100";
    assert HexPair('1', '0') == Some(16);
    assert t[3..] == "0";
    assert DecodeName("0") == "0";
  }

  // ------------------------------------------------------------------
  // Elements
  // ------------------------------------------------------------------

  /** A character a rendered element can begin with. */
  predicate IsElemStart(c: char)
  {
    c == 'n' || c == 't' || c == 'f' || c == '(' || c == '/' || c == '[' || c == '<' || c == '-' || IsDigit(c)
  }

  /** `render_elem`. */
  function Render(e: Elem): (r: string)
    ensures |r| > 0 && IsElemStart(r[0])
    decreases e
  {
    match e
    case Null => "null"
    case Bool(b) => if b then "true" else "false"
    case Int(i) => IntStart(i); IntToDecimal(i)
    case String(s) => "(" + EscapeString(s) + ")"
    case Name(s) => "/" + EscapeName(s)
    case Ref(n) => IntStart(n); IntToDecimal(n) + " 0 R"
    case Array(items) => "[" + RenderItems(items) + "]"
    case Dict(entries) => "<<\n" + RenderEntries(entries) + ">>"
    case Stream(c) =>
      "<<\n/Length " + IntToDecimal(Utf8.ByteLength(c)) + "\n>>\nstream\n" + c + "\nendstream"
  }

  lemma IntStart(i: int)
    ensures |IntToDecimal(i)| > 0 && IsElemStart(IntToDecimal(i)[0])
  {
    IntToDecimalRoundTrip(i);
    if i >= 0 {
      assert DigitValue(IntToDecimal(i)[0], 10).Some?;
    }
  }

  /** The items of an array, each rendered, joined by single spaces. */
  function RenderItems(items: seq<Elem>): string
    decreases items
  {
    if items == [] then []
    else if |items| == 1 then Render(items[0])
    else Render(items[0]) + " " + RenderItems(items[1..])
  }

  /** The entries of a dictionary, each `/key value` and a newline, in order; keys written raw. */
  function RenderEntries(es: seq<Entry>): string
    decreases es
  {
    if es == [] then [] else RenderEntry(es[0]) + RenderEntries(es[1..])
  }

  function RenderEntry(kv: Entry): string
    decreases kv
  {
    "/" + kv.key + " " + Render(kv.value) + "\n"
  }
}
