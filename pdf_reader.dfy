/**
  * A reader for the text the element encoder writes. It is the inverse that shows
  * the rendered form of a value determines the value, and the four lemmas at the end
  * show where it stops doing so: dictionary keys are written raw, delimiters in a
  * name are written unescaped and end the name early, and name escapes of code
  * points above 255 take more than two digits.
  */
module PdfReader {
  import opened Options
  import opened Numerals
  import opened PdfElem
  import Utf8

  predicate StartsWith(t: string, p: string) { |p| <= |t| && t[..|p|] == p }

  lemma Skip(p: string, t: string)
    ensures StartsWith(p + t, p) && (p + t)[|p|..] == t
  {
    assert (p + t)[..|p|] == p;
  }

  /** White-space characters (section 7.2.3 of ISO 32000-1). */
  predicate IsWhite(c: char)
  {
    c == '\0' || c == '\t' || c == '\n' || c == '\U{C}' || c == '\r' || c == ' '
  }

  /** Delimiter characters (section 7.2.3 of ISO 32000-1). */
  predicate IsDelimiter(c: char)
  {
    c == '(' || c == ')' || c == '<' || c == '>' || c == '[' || c == ']'
    || c == '{' || c == '}' || c == '/' || c == '%'
  }

  /** Regular characters: neither white space nor delimiters; a name token is a run of them. */
  predicate IsRegular(c: char) { !IsWhite(c) && !IsDelimiter(c) }

  predicate AllRegular(t: string) { forall i :: 0 <= i < |t| ==> IsRegular(t[i]) }

  /** The longest prefix of regular characters, and what follows it. */
  function TakeRegular(t: string): (r: (string, string))
    ensures r.0 + r.1 == t
    ensures AllRegular(r.0)
    ensures r.1 == [] || !IsRegular(r.1[0])
  {
    if t == [] || !IsRegular(t[0]) then ([], t)
    else
      var (a, b) := TakeRegular(t[1..]);
      var d := [t[0]] + a;
      assert d + b == t;
      assert forall i :: 1 <= i < |d| ==> d[i] == a[i - 1];
      (d, b)
  }

  /** Maximal munch splits a token off at the first character that is not regular. */
  lemma {:induction false} TakeRegularSplit(a: string, b: string)
    requires AllRegular(a) && (b == [] || !IsRegular(b[0]))
    ensures TakeRegular(a + b) == (a, b)
  {
    if a == [] {
      assert a + b == b;
    } else {
      assert (a + b)[0] == a[0] && (a + b)[1..] == a[1..] + b;
      TakeRegularSplit(a[1..], b);
      assert [a[0]] + a[1..] == a;
    }
  }


  /** The longest prefix of decimal digits, and what follows it. */
  function TakeDigits(t: string): (r: (string, string))
    ensures r.0 + r.1 == t
    ensures forall i :: 0 <= i < |r.0| ==> IsDigit(r.0[i])
    ensures r.1 == [] || !IsDigit(r.1[0])
  {
    if t == [] || !IsDigit(t[0]) then ([], t)
    else
      var (a, b) := TakeDigits(t[1..]);
      var d := [t[0]] + a;
      assert d + b == t;
      assert forall i :: 1 <= i < |d| ==> d[i] == a[i - 1];
      (d, b)
  }

  lemma {:induction false} TakeDigitsSplit(a: string, b: string)
    requires AllDigits(a, 10) && (b == [] || !IsDigit(b[0]))
    ensures TakeDigits(a + b) == (a, b)
  {
    if a == [] {
      assert a + b == b;
    } else {
      assert (a + b)[0] == a[0] && (a + b)[1..] == a[1..] + b;
      TakeDigitsSplit(a[1..], b);
      assert [a[0]] + a[1..] == a;
    }
  }

  /** The body of a literal string after its `(`: escaped characters up to the unescaped `)`. */
  function ParseLiteral(t: string): (r: Option<(string, string)>)
    ensures r.Some? ==> |r.value.1| < |t|
  {
    if t == [] || t[0] == '(' then None
    else if t[0] == ')' then Some(([], t[1..]))
    else if t[0] == '\\' then
      if |t| >= 2 && (t[1] == '\\' || t[1] == '(' || t[1] == ')') then
        match ParseLiteral(t[2..])
        case None => None
        case Some((s, rest)) => Some(([t[1]] + s, rest))
      else None
    else
      match ParseLiteral(t[1..])
      case None => None
      case Some((s, rest)) => Some(([t[0]] + s, rest))
  }

  /** The closing `)` of an escaped body is the first unescaped parenthesis, so the body reads back whole. */
  lemma {:induction false} ParseLiteralEscaped(s: string, rest: string)
    ensures ParseLiteral(EscapeEach(s) + ")" + rest) == Some((s, rest))
  {
    var t := EscapeEach(s) + ")" + rest;
    if s == [] {
      assert t == ")" + rest;
      assert t[1..] == rest;
    } else {
      var e, more := EscapeChar(s[0]), EscapeEach(s[1..]);
      ParseLiteralEscaped(s[1..], rest);
      assert t == e + (more + ")" + rest);
      if |e| == 2 {
        assert t[2..] == more + ")" + rest;
      } else {
        assert t[1..] == more + ")" + rest;
      }
      assert [s[0]] + s[1..] == s;
    }
  }

  /** The first `n` bytes of `t` as whole characters, and the rest; `None` if `n` falls inside a character. */
  function TakeBytes(t: string, n: nat): (r: Option<(string, string)>)
    ensures r.Some? ==> r.value.0 + r.value.1 == t && |Utf8.Encode(r.value.0)| == n
  {
    if n == 0 then Some(([], t))
    else if t == [] then None
    else
      var k := |Utf8.EncodeChar(t[0])|;
      if k > n then None
      else match TakeBytes(t[1..], n - k)
        case None => None
        case Some((a, b)) =>
          assert Utf8.Encode([t[0]] + a) == Utf8.EncodeChar(t[0]) + Utf8.Encode(a);
          assert [t[0]] + (a + b) == t;
          Some(([t[0]] + a, b))
  }

  lemma {:induction false} TakeBytesSplit(c: string, rest: string)
    ensures TakeBytes(c + rest, Utf8.ByteLength(c)) == Some((c, rest))
  {
    if c == [] {
      assert c + rest == rest;
    } else {
      var t := c + rest;
      assert t[0] == c[0] && t[1..] == c[1..] + rest;
      var k := |Utf8.EncodeChar(c[0])|;
      assert Utf8.Encode(c) == Utf8.EncodeChar(c[0]) + Utf8.Encode(c[1..]);
      assert Utf8.ByteLength(c) == k + Utf8.ByteLength(c[1..]);
      TakeBytesSplit(c[1..], rest);
      assert TakeBytes(t[1..], Utf8.ByteLength(c) - k) == Some((c[1..], rest));

      assert [c[0]] + c[1..] == c;
    }
  }

  /** A number, and a reference when ` 0 R` follows it. */
  function ParseNumber(s: string): (r: Option<(Elem, string)>)
    ensures r.Some? ==> |r.value.1| < |s|
  {
    var neg := |s| > 0 && s[0] == '-';
    var (ds, rest) := TakeDigits(if neg then s[1..] else s);
    match ValueOf(ds, 10)
    case None => None
    case Some(v) =>
      var i := if neg then -(v as int) else v;
      if StartsWith(rest, " 0 R") then Some((Ref(i), rest[4..])) else Some((Int(i), rest))
  }

  /** One element at the start of `s`, and what follows it; the first character decides its kind. */
  function ParseElem(s: string): (r: Option<(Elem, string)>)
    ensures r.Some? ==> |r.value.1| < |s|
    decreases |s|, 1
  {
    if s == [] then None
    else if s[0] == 'n' || s[0] == 't' || s[0] == 'f' then ParseKeyword(s)
    else if s[0] == '(' then ParseString(s)
    else if s[0] == '/' then ParseName(s)
    else if s[0] == '[' then ParseArray(s)
    else if s[0] == '<' then ParseDict(s)
    else if s[0] == '-' || IsDigit(s[0]) then ParseNumber(s)
    else None
  }

  function ParseKeyword(s: string): (r: Option<(Elem, string)>)
    ensures r.Some? ==> |r.value.1| < |s|
  {
    if StartsWith(s, "null") then Some((Null, s[4..]))
    else if StartsWith(s, "true") then Some((Bool(true), s[4..]))
    else if StartsWith(s, "false") then Some((Bool(false), s[5..]))
    else None
  }

  function ParseString(s: string): (r: Option<(Elem, string)>)
    requires |s| > 0
    ensures r.Some? ==> |r.value.1| < |s|
  {
    match ParseLiteral(s[1..])
    case None => None
    case Some((str, rest)) => Some((String(str), rest))
  }

  function ParseName(s: string): (r: Option<(Elem, string)>)
    requires |s| > 0
    ensures r.Some? ==> |r.value.1| < |s|
  {
    var (tok, rest) := TakeRegular(s[1..]);
    Some((Name(DecodeName(tok)), rest))
  }

  function ParseArray(s: string): (r: Option<(Elem, string)>)
    requires |s| > 0
    ensures r.Some? ==> |r.value.1| < |s|
    decreases |s|, 0
  {
    match ParseItems(s[1..])
    case None => None
    case Some((items, rest)) => if StartsWith(rest, "]") then Some((Array(items), rest[1..])) else None
  }

  function ParseDict(s: string): (r: Option<(Elem, string)>)
    ensures r.Some? ==> |r.value.1| < |s|
    decreases |s|, 0
  {
    if !StartsWith(s, "<<\n") then None
    else
      match ParseEntries(s[3..])
      case None => None
      case Some((es, rest)) => if StartsWith(rest, ">>") then ParseStreamOrDict(es, rest[2..]) else None
  }

  /** After `<< ... >>`: a stream when the dictionary is a lone `/Length` and `stream` follows. */
  function ParseStreamOrDict(es: seq<Entry>, after: string): (r: Option<(Elem, string)>)
    ensures r.Some? ==> |r.value.1| <= |after|
  {
    if |es| == 1 && es[0].key == "Length" && es[0].value.Int? && es[0].value.i >= 0
       && StartsWith(after, "\nstream\n")
    then
      match TakeBytes(after[8..], es[0].value.i)
      case None => None
      case Some((content, rest)) =>
        if StartsWith(rest, "\nendstream") then Some((Stream(content), rest[10..])) else None
    else Some((Dict(es), after))
  }

  /** Array items separated by single spaces, up to (not including) the closing `]`. */
  function ParseItems(s: string): (r: Option<(seq<Elem>, string)>)
    ensures r.Some? ==> |r.value.1| <= |s|
    decreases |s|, 2
  {
    if StartsWith(s, "]") then Some(([], s))
    else
      match ParseElem(s)
      case None => None
      case Some((e, rest)) =>
        if StartsWith(rest, " ") then
          match ParseItems(rest[1..])
          case None => None
          case Some((more, rest2)) => Some(([e] + more, rest2))
        else Some(([e], rest))
  }

  /** Dictionary entries, each `/key value` and a newline, up to (not including) the closing `>>`. */
  function ParseEntries(s: string): (r: Option<(seq<Entry>, string)>)
    ensures r.Some? ==> |r.value.1| <= |s|
    decreases |s|, 2
  {
    if StartsWith(s, ">>") then Some(([], s))
    else if !StartsWith(s, "/") then None
    else
      var (key, rest) := TakeRegular(s[1..]);
      if !StartsWith(rest, " ") then None
      else
        match ParseElem(rest[1..])
        case None => None
        case Some((v, rest2)) =>
          if !StartsWith(rest2, "\n") then None
          else
            match ParseEntries(rest2[1..])
            case None => None
            case Some((more, rest3)) => Some(([Entry(DecodeName(key), v)] + more, rest3))
  }

  /** A whole text that is exactly one element. */
  function Parse(s: string): Option<Elem>
  {
    match ParseElem(s)
    case Some((e, rest)) => if rest == [] then Some(e) else None
    case None => None
  }

  // ------------------------------------------------------------------
  // Where the rendered text reads back
  // ------------------------------------------------------------------

  /** A name the reader gets back: code points below 256 and no delimiter, which the escape leaves raw. */
  predicate WellFormedName(n: string)
  {
    IsLatin1(n) && forall i :: 0 <= i < |n| ==> !IsDelimiter(n[i])
  }

  /** A key the reader gets back: it is written raw, so only regular characters other than `#`. */
  predicate WellFormedKey(k: string)
  {
    forall i :: 0 <= i < |k| ==> IsRegular(k[i]) && k[i] != '#'
  }

  predicate WellFormed(e: Elem)
    decreases e
  {
    match e
    case Name(n) => WellFormedName(n)
    case Array(items) => forall i | 0 <= i < |items| :: WellFormed(items[i])
    case Dict(es) => forall i | 0 <= i < |es| :: WellFormedKey(es[i].key) && WellFormed(es[i].value)
    case _ => true
  }

  /** What may follow an element in the text: the end, `]`, a newline other than `stream`, or a space and a further element. */
  predicate Terminates(rest: string)
  {
    rest == [] || rest[0] == ']'
    || (rest[0] == '\n' && !StartsWith(rest, "\nstream\n"))
    || (rest[0] == ' ' && !StartsWith(rest, " R") && !StartsWith(rest, " 0 R"))
  }

  lemma AllRegularAppend(a: string, b: string)
    requires AllRegular(a) && AllRegular(b)
    ensures AllRegular(a + b)
  {
    assert forall i :: 0 <= i < |a| ==> (a + b)[i] == a[i];
    assert forall i :: |a| <= i < |a + b| ==> (a + b)[i] == b[i - |a|];
  }

  lemma EscapeNameCharRegular(c: char)
    requires !IsDelimiter(c)
    ensures AllRegular(EscapeNameChar(c))
  {
    EscapeNameCharShape(c);
    var e := EscapeNameChar(c);
    if NeedsHexEscape(c) {
      var h := LowerHex(c as int, 2);
      LowerHexTwoDigits(c as int);
      assert e == "#" + h;
      forall i | 0 <= i < |e| ensures IsRegular(e[i]) {
        if i > 0 {
          assert e[i] == h[i - 1];
          assert DigitValue(h[i - 1], 16).Some?;
        }
      }
    }
  }

  lemma {:induction false} EscapeNameRegular(n: string)
    requires forall i :: 0 <= i < |n| ==> !IsDelimiter(n[i])
    ensures AllRegular(EscapeName(n))
  {
    if n != [] {
      EscapeNameCharRegular(n[0]);
      assert forall i :: 0 <= i < |n[1..]| ==> !IsDelimiter(n[1..][i]) by {
        assert forall i :: 0 <= i < |n[1..]| ==> n[1..][i] == n[i + 1];
      }
      EscapeNameRegular(n[1..]);
      AllRegularAppend(EscapeNameChar(n[0]), EscapeName(n[1..]));
    }
  }

  /** A name without `#` decodes to itself. */
  lemma {:induction false} DecodeNamePlain(k: string)
    requires forall i :: 0 <= i < |k| ==> k[i] != '#'
    ensures DecodeName(k) == k
  {
    if k != [] {
      DecodeNamePlain(k[1..]);
      assert [k[0]] + k[1..] == k;
    }
  }

  /** No rendered element, whatever follows it, looks like the ` 0 R` tail of a reference. */
  lemma NoRefTail(x: Elem, t: string)
    requires !StartsWith(t, " R")
    ensures !StartsWith(Render(x) + t, "R") && !StartsWith(Render(x) + t, "0 R")
  {
    var r := Render(x);
    assert (r + t)[0] == r[0];
    if r[0] == '0' {
      match x
      case Int(i) =>
        IntToDecimalRoundTrip(i);
        assert r == "0";
        if |t| >= 2 {
          assert (r + t)[1..3] == t[..2];
        }
      case Ref(n) =>
        IntToDecimalRoundTrip(n);
        assert r == "0 0 R";
        assert (r + t)[2] == '0';
      case _ =>
    }
  }

  /** `ParseNumber` from its pieces: the sign, the digit run with its value, and what follows. */
  lemma NumberParts(s: string, neg: bool, digits: string, rest: string, v: nat)
    requires neg <==> |s| > 0 && s[0] == '-'
    requires (if neg then s[1..] else s) == digits + rest
    requires TakeDigits(digits + rest) == (digits, rest) && ValueOf(digits, 10) == Some(v)
    ensures var i := if neg then -(v as int) else v;
            ParseNumber(s) == if StartsWith(rest, " 0 R") then Some((Ref(i), rest[4..])) else Some((Int(i), rest))
  {
    var body := if neg then s[1..] else s;
    assert TakeDigits(body) == (digits, rest);
  }

  /** A one-character sign before two texts: its first element and the rest, regrouped. */
  lemma SignThen<T>(sign: seq<T>, a: seq<T>, b: seq<T>)
    requires |sign| == 1
    ensures (sign + a + b)[0] == sign[0] && (sign + a + b)[1..] == a + b
  {
    assert sign + a + b == sign + (a + b);
  }

  /** No sign before two texts: the first element is the first text's. */
  lemma NoSignThen<T>(a: seq<T>, b: seq<T>)
    requires |a| > 0
    ensures [] + a + b == a + b && (a + b)[0] == a[0]
  {
  }

  /** `ParseNumber` on an optional sign, then a digit run with value m that `TakeDigits` cuts off from the rest. */
  lemma ParseSignedDigits(neg: bool, digits: string, m: nat, rest: string)
    requires |digits| > 0 && digits[0] != '-'
    requires TakeDigits(digits + rest) == (digits, rest) && ValueOf(digits, 10) == Some(m)
    ensures var i := if neg then -(m as int) else m;
            ParseNumber((if neg then "-" else "") + digits + rest)
              == if StartsWith(rest, " 0 R") then Some((Ref(i), rest[4..])) else Some((Int(i), rest))
  {
    var s := (if neg then "-" else "") + digits + rest;
    if neg {
      SignThen("-", digits, rest);
    } else {
      NoSignThen(digits, rest);
    }
    NumberParts(s, neg, digits, rest, m);
  }

  /** The digits of an integer, read by `ParseNumber`, give the integer back; a following ` 0 R` makes it a reference. */
  lemma ParseNumberOf(i: int, rest: string)
    requires rest == [] || !IsDigit(rest[0])
    ensures ParseNumber(IntToDecimal(i) + rest)
      == if StartsWith(rest, " 0 R") then Some((Ref(i), rest[4..])) else Some((Int(i), rest))
  {
    var m: nat := if i < 0 then -i else i;
    ValueOfDigits(m, 10);
    DigitsShape(m, 10);
    assert IntToDecimal(i) == (if i < 0 then "-" else "") + Digits(m, 10);
    TakeDigitsSplit(Digits(m, 10), rest);
    assert DigitValue(Digits(m, 10)[0], 10).Some?;
    ParseSignedDigits(i < 0, Digits(m, 10), m, rest);
  }

  /** The first character of a value's text selects how the reader goes on. */
  lemma Dispatch(s: string)
    requires s != []
    ensures s[0] == '(' ==> ParseElem(s) == ParseString(s)
    ensures s[0] == '/' ==> ParseElem(s) == ParseName(s)
    ensures s[0] == '[' ==> ParseElem(s) == ParseArray(s)
    ensures s[0] == '<' ==> ParseElem(s) == ParseDict(s)
    ensures s[0] == '-' || IsDigit(s[0]) ==> ParseElem(s) == ParseNumber(s)
    ensures s[0] == 'n' || s[0] == 't' || s[0] == 'f' ==> ParseElem(s) == ParseKeyword(s)
  {
  }

  /** A name token runs to the first character that is not regular. */
  lemma NameStep(a: string, b: string)
    requires AllRegular(a) && (b == [] || !IsRegular(b[0]))
    ensures ParseName("/" + a + b) == Some((Name(DecodeName(a)), b))
  {
    assert ("/" + a + b)[1..] == a + b;
    TakeRegularSplit(a, b);
  }

  lemma ArrayText(t: string, rest: string)
    ensures ("[" + t + "]" + rest)[1..] == t + "]" + rest
    ensures StartsWith("]" + rest, "]") && ("]" + rest)[1..] == rest
  {
    assert ("]" + rest)[..1] == "]";
  }

  lemma ArrayStep(t: string, items: seq<Elem>, rest: string)
    requires ParseItems(t + "]" + rest) == Some((items, "]" + rest))
    ensures ParseArray("[" + t + "]" + rest) == Some((Array(items), rest))
  {
    ArrayText(t, rest);
  }

  lemma DictText(t: string, rest: string)
    ensures var s := "<<\n" + t + ">>" + rest;
            StartsWith(s, "<<\n") && s[3..] == t + ">>" + rest
            && StartsWith(">>" + rest, ">>") && (">>" + rest)[2..] == rest
  {
    var s := "<<\n" + t + ">>" + rest;
    assert s[..3] == "<<\n";
    assert (">>" + rest)[..2] == ">>";
  }

  lemma DictStep(t: string, es: seq<Entry>, rest: string)
    requires ParseEntries(t + ">>" + rest) == Some((es, ">>" + rest))
    ensures ParseDict("<<\n" + t + ">>" + rest) == ParseStreamOrDict(es, rest)
  {
    DictText(t, rest);
  }

  /** One step of `ParseItems` past its first element. */
  lemma ItemsUnfold(s: string, e: Elem, rest: string)
    requires !StartsWith(s, "]") && ParseElem(s) == Some((e, rest))
    ensures ParseItems(s) == if StartsWith(rest, " ") then
                                match ParseItems(rest[1..])
                                case None => None
                                case Some((more, rest2)) => Some(([e] + more, rest2))
                              else Some(([e], rest))
  {
  }

  /** A rendered element never begins with `]`, whatever follows it. */
  lemma NotClose(x: Elem, t: string)
    ensures !StartsWith(Render(x) + t, "]")
  {
    var s := Render(x) + t;
    assert s[..1][0] == s[0] == Render(x)[0];
  }

  lemma ItemsLast(x: Elem, r: string)
    requires ParseElem(Render(x) + r) == Some((x, r)) && StartsWith(r, "]")
    ensures ParseItems(Render(x) + r) == Some(([x], r))
  {
    NotClose(x, r);
    assert !StartsWith(r, " ") by { assert r[..1][0] == r[0] == ']'; }
    ItemsUnfold(Render(x) + r, x, r);
  }

  lemma ItemsCons(x: Elem, more: string, xs: seq<Elem>, r: string)
    requires ParseElem(Render(x) + (" " + more)) == Some((x, " " + more))
    requires ParseItems(more) == Some((xs, r))
    ensures ParseItems(Render(x) + (" " + more)) == Some(([x] + xs, r))
  {
    NotClose(x, " " + more);
    Skip(" ", more);
    ItemsUnfold(Render(x) + (" " + more), x, " " + more);
  }

  lemma EntriesEnd(r: string)
    requires StartsWith(r, ">>")
    ensures ParseEntries(r) == Some(([], r))
  {
  }

  /** One step of `ParseEntries` on an entry whose parts have been read. */
  lemma EntriesUnfold(s: string, key: string, rest: string, v: Elem, rest2: string)
    requires StartsWith(s, "/") && !StartsWith(s, ">>") && TakeRegular(s[1..]) == (key, rest)
    requires StartsWith(rest, " ") && ParseElem(rest[1..]) == Some((v, rest2)) && StartsWith(rest2, "\n")
    ensures ParseEntries(s) == match ParseEntries(rest2[1..])
                               case None => None
                               case Some((more, r)) => Some(([Entry(DecodeName(key), v)] + more, r))
  {
  }

  /** How the text of an entry splits: after `/`, the key and then a space before the value. */
  lemma EntryText(k: string, x: string, more: string)
    ensures var t := " " + x + "\n" + more;
            var s := "/" + k + " " + x + "\n" + more;
            StartsWith(s, "/") && !StartsWith(s, ">>") && s[1..] == k + t
            && StartsWith(t, " ") && t[1..] == x + "\n" + more
  {
    var t := " " + x + "\n" + more;
    var s := "/" + k + " " + x + "\n" + more;
    assert s == "/" + (k + t);
    assert s[..1] == "/";
    if |s| >= 2 { assert s[..2][0] == s[0] == '/'; }
    assert t[..1] == " ";
  }

  /** An entry `/k x` and a newline, where `x` is the text of its value, then more entries. */
  lemma EntriesCons(k: string, x: string, v: Elem, more: string, es: seq<Entry>, r: string)
    requires AllRegular(k)
    requires ParseElem(x + "\n" + more) == Some((v, "\n" + more))
    requires ParseEntries(more) == Some((es, r))
    ensures ParseEntries("/" + k + " " + x + "\n" + more) == Some(([Entry(DecodeName(k), v)] + es, r))
  {
    var t := " " + x + "\n" + more;
    var s := "/" + k + " " + x + "\n" + more;
    EntryText(k, x, more);
    TakeRegularSplit(k, t);
    var nl := "\n" + more;
    Skip("\n", more);
    EntriesUnfold(s, k, t, v, nl);
  }

  /** The first character of a rendered integer sends the reader to `ParseNumber`. */
  lemma DispatchNumber(i: int, rest: string)
    ensures ParseElem(IntToDecimal(i) + rest) == ParseNumber(IntToDecimal(i) + rest)
  {
    var d := IntToDecimal(i);
    IntToDecimalRoundTrip(i);
    assert (d + rest)[0] == d[0];
    if i >= 0 {
      assert DigitValue(d[0], 10).Some?;
    }
    Dispatch(d + rest);
  }

  lemma RoundTripNumber(i: int, rest: string)
    requires Terminates(rest)
    ensures ParseElem(IntToDecimal(i) + rest) == Some((Int(i), rest))
  {
    DispatchNumber(i, rest);
    ParseNumberOf(i, rest);
  }

  lemma RoundTripRef(n: int, rest: string)
    ensures ParseElem(IntToDecimal(n) + " 0 R" + rest) == Some((Ref(n), rest))
  {
    var tail := " 0 R" + rest;
    assert IntToDecimal(n) + " 0 R" + rest == IntToDecimal(n) + tail;
    DispatchNumber(n, tail);
    ParseNumberOf(n, tail);
    Skip(" 0 R", rest);
  }

  lemma RoundTripString(str: string, rest: string)
    ensures ParseElem(Render(String(str)) + rest) == Some((String(str), rest))
  {
    var s := Render(String(str)) + rest;
    assert s[0] == '(';
    Dispatch(s);
    EscapeStringSinglePass(str);
    assert s[1..] == EscapeEach(str) + ")" + rest;
    ParseLiteralEscaped(str, rest);
  }

  lemma RoundTripName(n: string, rest: string)
    requires WellFormedName(n) && (rest == [] || !IsRegular(rest[0]))
    ensures ParseElem(Render(Name(n)) + rest) == Some((Name(n), rest))
  {
    var s := Render(Name(n)) + rest;
    assert s == "/" + EscapeName(n) + rest;
    Dispatch(s);
    EscapeNameRegular(n);
    NameStep(EscapeName(n), rest);
    DecodeEscapeName(n);
  }

  lemma TerminatesNewline(r: string)
    requires r == [] || r[0] != 's'
    ensures Terminates("\n" + r)
  {
    if |r| >= 7 {
      assert ("\n" + r)[..8][1] == r[0];
    }
  }

  lemma TerminatesSpace(u: string)
    requires !StartsWith(u, "R") && !StartsWith(u, "0 R")
    ensures Terminates(" " + u)
  {
    var t := " " + u;
    if |u| >= 1 {
      assert u[..1] == [u[0]];
      assert t[..2] == [' ', u[0]];
    }
    if |u| >= 3 {
      assert u[..3] == [u[0], u[1], u[2]];
      assert t[..4] == [' ', u[0], u[1], u[2]];
    }
  }

  lemma NotStreamStart(rest: string)
    requires Terminates(rest)
    ensures !StartsWith(rest, "\nstream\n")
  {
  }

  /** A dictionary with a single entry reads back. */
  lemma OneEntry(k: string, v: Elem, r: string)
    requires AllRegular(k)
    requires ParseElem(Render(v) + "\n" + r) == Some((v, "\n" + r))
    requires StartsWith(r, ">>")
    ensures ParseEntries("/" + k + " " + Render(v) + "\n" + r) == Some(([Entry(DecodeName(k), v)], r))
  {
    EntriesEnd(r);
    EntriesCons(k, Render(v), v, r, [], r);
    assert [Entry(DecodeName(k), v)] + [] == [Entry(DecodeName(k), v)];
  }

  lemma LengthRegular()
    ensures AllRegular("Length")
  {
  }

  /** The key `Length` has no `#`, so it decodes to itself. */
  lemma LengthDecodes()
    ensures DecodeName("Length") == "Length"
  {
    var k := "Length";
    assert k == ['L', 'e', 'n', 'g', 't', 'h'];
    assert forall i :: 0 <= i < |k| ==> k[i] != '#';
    DecodeNamePlain(k);
  }

  lemma NumberThenEnd(len: nat, r: string)
    requires StartsWith(r, ">>")
    ensures ParseElem(Render(Int(len)) + "\n" + r) == Some((Int(len), "\n" + r))
  {
    assert r[0] == r[..2][0] == '>';
    TerminatesNewline(r);
    RoundTripNumber(len, "\n" + r);
    assert Render(Int(len)) + "\n" + r == IntToDecimal(len) + ("\n" + r);
  }

  /** The lone `/Length` entry of a stream's dictionary reads back. */
  lemma RoundTripLength(len: nat, r: string)
    requires StartsWith(r, ">>")
    ensures ParseEntries("/" + "Length" + " " + Render(Int(len)) + "\n" + r) == Some(([Entry("Length", Int(len))], r))
  {
    NumberThenEnd(len, r);
    LengthRegular();
    LengthDecodes();
    OneEntry("Length", Int(len), r);
  }

  /** After the stream dictionary, the reader takes exactly `/Length` bytes and the `endstream` keyword. */
  lemma StreamTail(c: string, rest: string)
    ensures ParseStreamOrDict([Entry("Length", Int(Utf8.ByteLength(c)))], "\nstream\n" + c + "\nendstream" + rest)
      == Some((Stream(c), rest))
  {
    var body := c + ("\nendstream" + rest);
    var after := "\nstream\n" + c + "\nendstream" + rest;
    assert after == "\nstream\n" + body;
    Skip("\nstream\n", body);
    TakeBytesSplit(c, "\nendstream" + rest);
    Skip("\nendstream", rest);
  }

  lemma RenderStreamShape(c: string)
    ensures Render(Stream(c))
      == "<<\n" + ("/" + "Length" + " " + Render(Int(Utf8.ByteLength(c))) + "\n") + ">>" + "\nstream\n" + c + "\nendstream"
  {
    StreamText(IntToDecimal(Utf8.ByteLength(c)), c);
  }

  lemma StreamText(d: string, c: string)
    ensures "<<\n/Length " + d + "\n>>\nstream\n" + c + "\nendstream"
      == "<<\n" + ("/" + "Length" + " " + d + "\n") + ">>" + "\nstream\n" + c + "\nendstream"
  {
    assert "<<\n/Length " == "<<\n" + "/" + "Length" + " ";
    assert "\n>>\nstream\n" == "\n" + ">>" + "\nstream\n";
  }

  /** The text of a stream and what follows, cut where the reader takes it apart. */
  lemma StreamPieces(c: string, rest: string)
    ensures var t := "/" + "Length" + " " + Render(Int(Utf8.ByteLength(c))) + "\n";
            var after := "\nstream\n" + c + "\nendstream" + rest;
            var s := Render(Stream(c)) + rest;
            s == "<<\n" + t + ">>" + after && s[0] == '<'
            && t + ">>" + after == "/" + "Length" + " " + Render(Int(Utf8.ByteLength(c))) + "\n" + (">>" + after)
            && StartsWith(">>" + after, ">>")
  {
    RenderStreamShape(c);
    StreamPiecesText(Render(Int(Utf8.ByteLength(c))), c, rest);
  }

  lemma StreamPiecesText(d: string, c: string, rest: string)
    ensures var t := "/" + "Length" + " " + d + "\n";
            var after := "\nstream\n" + c + "\nendstream" + rest;
            ("<<\n" + t + ">>" + "\nstream\n" + c + "\nendstream") + rest == "<<\n" + t + ">>" + after
            && ("<<\n" + t + ">>" + after)[0] == '<'
            && t + ">>" + after == "/" + "Length" + " " + d + "\n" + (">>" + after)
            && StartsWith(">>" + after, ">>")
  {
    var after := "\nstream\n" + c + "\nendstream" + rest;
    Skip(">>", after);
  }

  lemma RoundTripStream(c: string, rest: string)
    ensures ParseElem(Render(Stream(c)) + rest) == Some((Stream(c), rest))
  {
    var len := Utf8.ByteLength(c);
    var t := "/" + "Length" + " " + Render(Int(len)) + "\n";
    var after := "\nstream\n" + c + "\nendstream" + rest;
    StreamPieces(c, rest);
    Dispatch(Render(Stream(c)) + rest);
    RoundTripLength(len, ">>" + after);
    DictStep(t, [Entry("Length", Int(len))], after);
    StreamTail(c, rest);
  }

  lemma {:induction false} RoundTrip(e: Elem, rest: string)
    requires WellFormed(e) && Terminates(rest)
    ensures ParseElem(Render(e) + rest) == Some((e, rest))
    decreases e
  {
    match e
    case Null =>
      Skip("null", rest);
      Dispatch("null" + rest);
    case Bool(b) =>
      if b {
        Skip("true", rest);
        Dispatch("true" + rest);
      } else {
        Skip("false", rest);
        Dispatch("false" + rest);
      }
    case Int(i) => RoundTripNumber(i, rest);
    case Ref(n) =>
      RoundTripRef(n, rest);
      assert Render(e) + rest == IntToDecimal(n) + " 0 R" + rest;
    case String(str) => RoundTripString(str, rest);
    case Name(n) => RoundTripName(n, rest);
    case Array(items) => RoundTripArray(items, rest);
    case Dict(es) => RoundTripDict(es, rest);
    case Stream(c) => RoundTripStream(c, rest);
  }

  lemma {:induction false} RoundTripArray(items: seq<Elem>, rest: string)
    requires forall i | 0 <= i < |items| :: WellFormed(items[i])
    requires Terminates(rest)
    ensures ParseElem(Render(Array(items)) + rest) == Some((Array(items), rest))
    decreases items, 2
  {
    var t := RenderItems(items);
    var s := Render(Array(items)) + rest;
    assert s == "[" + t + "]" + rest;
    Dispatch(s);
    Skip("]", rest);
    RoundTripItems(items, "]" + rest);
    assert t + ("]" + rest) == t + "]" + rest;
    ArrayStep(t, items, rest);
  }

  lemma {:induction false} RoundTripDict(es: seq<Entry>, rest: string)
    requires forall i | 0 <= i < |es| :: WellFormedKey(es[i].key) && WellFormed(es[i].value)
    requires Terminates(rest)
    ensures ParseElem(Render(Dict(es)) + rest) == Some((Dict(es), rest))
    decreases es, 1
  {
    var t := RenderEntries(es);
    var s := Render(Dict(es)) + rest;
    assert s == "<<\n" + t + ">>" + rest;
    Dispatch(s);
    assert ParseEntries(t + ">>" + rest) == Some((es, ">>" + rest)) by {
      Skip(">>", rest);
      RoundTripEntries(es, ">>" + rest);
      assert t + (">>" + rest) == t + ">>" + rest;
    }
    DictStep(t, es, rest);
    NotStreamStart(rest);
  }

  lemma {:induction false} RoundTripItems(items: seq<Elem>, r: string)
    requires forall i | 0 <= i < |items| :: WellFormed(items[i])
    requires StartsWith(r, "]")
    ensures ParseItems(RenderItems(items) + r) == Some((items, r))
    decreases items, 1
  {
    if items == [] {
      assert RenderItems(items) + r == r;
    } else if |items| == 1 {
      var x := items[0];
      assert RenderItems(items) + r == Render(x) + r;
      assert r[..1] == "]";
      RoundTrip(x, r);
      ItemsLast(x, r);
      assert [x] == items;
    } else {
      RoundTripItemsCons(items, r);
    }
  }

  lemma {:induction false} RoundTripItemsCons(items: seq<Elem>, r: string)
    requires forall i | 0 <= i < |items| :: WellFormed(items[i])
    requires StartsWith(r, "]") && |items| > 1
    ensures ParseItems(RenderItems(items) + r) == Some((items, r))
    decreases items, 0
  {
    var x := items[0];
    var u := RenderItems(items[1..]) + r;
    RenderItemsCons(items, r);
    ItemsNoRef(items[1..], r);
    TerminatesSpace(u);
    RoundTrip(x, " " + u);
    assert forall i | 0 <= i < |items[1..]| :: WellFormed(items[1..][i]) by {
      forall i | 0 <= i < |items[1..]| ensures WellFormed(items[1..][i]) {
        assert items[1..][i] == items[i + 1];
      }
    }
    RoundTripItems(items[1..], r);
    ItemsCons(x, u, items[1..], r);
    assert [x] + items[1..] == items;
  }

  lemma RenderItemsCons(items: seq<Elem>, r: string)
    requires |items| > 1
    ensures RenderItems(items) + r == Render(items[0]) + (" " + (RenderItems(items[1..]) + r))
  {
  }

  /** After the first of several items comes a space and the start of the next item, never `R`. */
  lemma ItemsText(items: seq<Elem>, r: string)
    requires |items| > 1
    ensures var t := " " + (RenderItems(items[1..]) + r);
            RenderItems(items) + r == Render(items[0]) + t && !StartsWith(t, " R")
  {
    var more := RenderItems(items[1..]);
    var t := " " + (more + r);
    assert more[0] == Render(items[1])[0];
    assert t[1] == more[0];
    if |t| >= 2 { assert t[..2][1] == t[1]; }
  }

  /** The last item, before the closing `]`, does not begin like the tail of a reference. */
  lemma LastItemNoRef(x: Elem, r: string)
    requires StartsWith(r, "]")
    ensures !StartsWith(Render(x) + r, "R") && !StartsWith(Render(x) + r, "0 R")
  {
    assert r[0] == r[..1][0];
    if |r| >= 2 { assert r[..2][0] == r[0]; }
    NoRefTail(x, r);
  }

  /** Rendered items never begin like the tail of a reference. */
  lemma ItemsNoRef(items: seq<Elem>, r: string)
    requires |items| > 0 && StartsWith(r, "]")
    ensures !StartsWith(RenderItems(items) + r, "R") && !StartsWith(RenderItems(items) + r, "0 R")
  {
    if |items| == 1 {
      assert RenderItems(items) == Render(items[0]);
      LastItemNoRef(items[0], r);
    } else {
      ItemsText(items, r);
      NoRefTail(items[0], " " + (RenderItems(items[1..]) + r));
    }
  }

  /** The text of entries split at the first: its key, its value, and what follows, which does not begin with `s`. */
  lemma EntriesText(es: seq<Entry>, r: string)
    requires es != [] && StartsWith(r, ">>")
    ensures var more := RenderEntries(es[1..]) + r;
            RenderEntries(es) + r == "/" + es[0].key + " " + Render(es[0].value) + "\n" + more
            && Render(es[0].value) + ("\n" + more) == Render(es[0].value) + "\n" + more
            && (more == [] || more[0] != 's')
  {
    var more := RenderEntries(es[1..]) + r;
    assert RenderEntries(es) == RenderEntry(es[0]) + RenderEntries(es[1..]);
    EntryJoin("/", es[0].key, " ", Render(es[0].value), "\n", RenderEntries(es[1..]), r);
    if es[1..] == [] {
      assert more == r;
      assert r[0] == r[..2][0];
    } else {
      assert RenderEntries(es[1..]) == RenderEntry(es[1]) + RenderEntries(es[2..]);
      assert more[0] == '/';
    }
  }

  /** Regrouping one entry's pieces against what follows it. */
  lemma EntryJoin<T>(sl: seq<T>, k: seq<T>, sp: seq<T>, v: seq<T>, nl: seq<T>, tail: seq<T>, r: seq<T>)
    ensures (sl + k + sp + v + nl + tail) + r == sl + k + sp + v + nl + (tail + r)
    ensures v + (nl + (tail + r)) == v + nl + (tail + r)
  {}

  /** A well-formed key is regular and has no `#`, so it reads back as itself. */
  lemma KeyPlain(k: string)
    requires WellFormedKey(k)
    ensures AllRegular(k) && DecodeName(k) == k
  {
    DecodeNamePlain(k);
  }

  lemma {:induction false} RoundTripEntries(es: seq<Entry>, r: string)
    requires forall i | 0 <= i < |es| :: WellFormedKey(es[i].key) && WellFormed(es[i].value)
    requires StartsWith(r, ">>")
    ensures ParseEntries(RenderEntries(es) + r) == Some((es, r))
    decreases es, 0
  {
    if es == [] {
      assert RenderEntries(es) + r == r;
      EntriesEnd(r);
    } else {
      var k, v := es[0].key, es[0].value;
      var more := RenderEntries(es[1..]) + r;
      EntriesText(es, r);
      TerminatesNewline(more);
      RoundTrip(v, "\n" + more);
      RoundTripEntries(es[1..], r);
      KeyPlain(k);
      EntriesCons(k, Render(v), v, more, es[1..], r);
      assert [Entry(k, v)] + es[1..] == es;
    }
  }

  /**
    * Rendering round-trips on well-formed values: the text of a value determines
    * the value, with its entries and items in their order.
    */
  lemma RenderRoundTrip(e: Elem)
    requires WellFormed(e)
    ensures Parse(Render(e)) == Some(e)
  {
    RoundTrip(e, []);
    assert Render(e) + [] == Render(e);
  }

  /** Dictionary keys are written raw, so two different dictionaries can render the same text. */
  lemma RawKeysCollide()
    ensures Render(Dict([Entry("a 1\n/b", Int(2))])) == Render(Dict([Entry("a", Int(1)), Entry("b", Int(2))]))
  {
    assert IntToDecimal(1) == "1";
    assert IntToDecimal(2) == "2";
    var es := [Entry("a", Int(1)), Entry("b", Int(2))];
    assert RenderEntry(es[0]) == "/a 1\n";
    assert RenderEntry(es[1]) == "/b 2\n";
    assert RenderEntries(es[1..]) == RenderEntry(es[1]) + RenderEntries([]);
    assert RenderEntries(es) == "/a 1\n/b 2\n";
    var one := [Entry("a 1\n/b", Int(2))];
    assert RenderEntry(one[0]) == "/a 1\n/b 2\n";
    assert RenderEntries(one) == RenderEntry(one[0]) + RenderEntries([]);
  }

  lemma DelimiterNameRenders()
    ensures Render(Array([Name("a]")])) == "[/a]]"
  {
    assert EscapeName("a]") == EscapeNameChar('a') + EscapeName("]");
    assert EscapeName("]") == EscapeNameChar(']') + EscapeName([]);
    assert RenderItems([Name("a]")]) == "/a]";
  }

  /** In `[/a]]` the name token stops at the first `]`, which closes the array. */
  lemma NameClosesArray(a: string)
    requires AllRegular(a)
    ensures ParseElem("[/" + a + "]]") == Some((Array([Name(DecodeName(a))]), "]"))
  {
    var t := "/" + a;
    var s := t + "]" + "]";
    assert s == "/" + a + "]]";
    NameStep(a, "]]");
    Dispatch(s);
    assert !StartsWith(s, "]") by { assert s[..1][0] == '/'; }
    assert !StartsWith("]]", " ") by { assert "]]"[..1][0] == ']'; }
    assert ParseElem(s) == Some((Name(DecodeName(a)), "]]"));
    assert ParseItems(s) == Some(([Name(DecodeName(a))], "]]"));
    assert "]" + "]" == "]]";
    ArrayStep(t, [Name(DecodeName(a))], "]");
    assert "[" + t + "]" + "]" == "[/" + a + "]]";
    Dispatch("[/" + a + "]]");
  }

  /** Delimiters in a name are written raw, against section 7.3.5 of ISO 32000-1, so the name ends early when read. */
  lemma DelimiterInNameMisreads()
    ensures Render(Array([Name("a]")])) == "[/a]]"
    ensures Parse(Render(Array([Name("a]")]))) == None
  {
    DelimiterNameRenders();
    assert AllRegular("a");
    NameClosesArray("a");
    assert "[/" + "a" + "]]" == "[/a]]";
  }

  /** A name with a code point above 255 reads back as different characters. */
  lemma WideNameReadsBackWrong()
    ensures Parse(Render(Name("\U{100}"))) == Some(Name("\U{10}0"))
  {
    WideNameEscapeMisreads();
    assert Render(Name("\U{100}")) == "/#100";
    assert AllRegular("#100");
    TakeRegularSplit("#100", []);
    assert "#100" + [] == "#100";
    Dispatch("/#100");
  }
}
