/**
  * The file layer: indirect objects, the header, the cross-reference table and the
  * trailer, and `RenderPdf`, which writes them one after another and records byte
  * offsets as it goes.
  *
  * The rendered document is a byte sequence: the header holds four raw bytes that
  * are not UTF-8, and every offset is a byte count (`String::len`), so the text
  * parts are measured through their UTF-8 encoding.
  */
module PdfFile {
  import opened Options
  import opened Numerals
  import opened PdfElem
  import opened Utf8
  import PdfReader

  /** An indirect object: its number and the value it holds. */
  datatype Obj = Obj(n: int, elem: Elem)

  datatype EntryUse = FreeEntry | InUseEntry

  /** One row of the cross-reference table. */
  datatype XrefEntry = XrefEntry(offset: int, generation: int, entryUse: EntryUse)

  datatype Trailer = Trailer(root: int, size: int, startxref: int)

  /** A whole file: the version written in the header, the catalog's object number, and the objects in order. */
  datatype PdfFile = PdfFile(version: (nat, nat), catalog: int, objects: seq<Obj>)

  // ------------------------------------------------------------------
  // Joining and measuring
  // ------------------------------------------------------------------

  /** The strings one after another, with nothing between them (`join("")`). */
  function Concat(ss: seq<string>): string
  {
    if ss == [] then [] else Concat(ss[..|ss| - 1]) + ss[|ss| - 1]
  }

  lemma {:induction false} ConcatAppend(a: seq<string>, b: seq<string>)
    ensures Concat(a + b) == Concat(a) + Concat(b)
  {
    if b == [] {
      assert a + b == a;
    } else {
      assert (a + b)[..|a + b| - 1] == a + b[..|b| - 1];
      assert (a + b)[|a + b| - 1] == b[|b| - 1];
      ConcatAppend(a, b[..|b| - 1]);
    }
  }

  /** Every piece has width `w`. */
  predicate SameWidth(ss: seq<string>, w: nat)
  {
    forall i :: 0 <= i < |ss| ==> |ss[i]| == w
  }

  lemma SameWidthInit(ss: seq<string>, w: nat)
    requires SameWidth(ss, w) && ss != []
    ensures SameWidth(ss[..|ss| - 1], w) && |ss[|ss| - 1]| == w
  {
    var init := ss[..|ss| - 1];
    forall i | 0 <= i < |init| ensures |init[i]| == w {
      assert init[i] == ss[i];
    }
  }

  lemma MulStep(w: nat, k: nat)
    ensures w * (k + 1) == w * k + w
  {
  }

  lemma {:induction false} ConcatWidth(ss: seq<string>, w: nat)
    requires SameWidth(ss, w)
    ensures |Concat(ss)| == w * |ss|
  {
    if ss != [] {
      var init := ss[..|ss| - 1];
      SameWidthInit(ss, w);
      ConcatWidth(init, w);
      MulStep(w, |init|);
    }
  }

  lemma MulMonotone(w: nat, a: nat, b: nat)
    requires a <= b
    ensures w * a <= w * b
  {
  }

  lemma SliceLeft<T>(a: seq<T>, b: seq<T>, i: nat, j: nat)
    requires i <= j <= |a|
    ensures (a + b)[i..j] == a[i..j]
  {
  }

  lemma SliceRight<T>(a: seq<T>, b: seq<T>)
    ensures (a + b)[|a|..|a| + |b|] == b
  {
  }

  /** Strings of one fixed width join into a text where the k-th piece sits at `k * w`. */
  lemma {:induction false} ConcatFixedWidth(ss: seq<string>, w: nat, k: nat)
    requires SameWidth(ss, w)
    requires k < |ss|
    ensures |Concat(ss)| == w * |ss| && w * k + w <= |Concat(ss)| && Concat(ss)[w * k..w * k + w] == ss[k]
  {
    var init, last := ss[..|ss| - 1], ss[|ss| - 1];
    var c := Concat(init);
    assert Concat(ss) == c + last;
    SameWidthInit(ss, w);
    ConcatWidth(ss, w);
    MulMonotone(w, k + 1, |ss|);
    MulStep(w, k);
    if k < |init| {
      ConcatFixedWidth(init, w, k);
      assert init[k] == ss[k];
      SliceLeft(c, last, w * k, w * k + w);
    } else {
      ConcatWidth(init, w);
      assert |init| == k;
      SliceRight(c, last);
    }
  }

  // ------------------------------------------------------------------
  // Objects, header, cross-reference table, trailer
  // ------------------------------------------------------------------

  /** `n 0 obj`, the value, `endobj`. */
  function RenderObj(obj: Obj): string
  {
    IntToDecimal(obj.n) + " 0 obj\n" + Render(obj.elem) + "\nendobj\n"
  }

  /** Reads an indirect object back: a number, ` 0 obj`, one value, `endobj`, and nothing more. */
  function ParseObj(s: string): Option<Obj>
  {
    match PdfReader.ParseElem(s)
    case Some((Int(n), rest)) =>
      if !PdfReader.StartsWith(rest, " 0 obj\n") then None
      else
        (match PdfReader.ParseElem(rest[7..])
         case Some((e, rest2)) => if rest2 == "\nendobj\n" then Some(Obj(n, e)) else None
         case None => None)
    case _ => None
  }

  /** An indirect object whose value the reader gets back reads back whole, number included. */
  lemma ObjReadsBack(obj: Obj)
    requires PdfReader.WellFormed(obj.elem)
    ensures ParseObj(RenderObj(obj)) == Some(obj)
  {
    var v := Render(obj.elem) + "\nendobj\n";
    var t := " 0 obj\n" + v;
    ObjText(IntToDecimal(obj.n), Render(obj.elem));
    PdfReader.TerminatesSpace("0 obj\n" + v);
    PdfReader.RoundTripNumber(obj.n, t);
    PdfReader.TerminatesNewline("endobj\n");
    PdfReader.RoundTrip(obj.elem, "\nendobj\n");
    ObjUnfold(IntToDecimal(obj.n) + t, obj.n, t, obj.elem);
  }

  /** The text of an object cut where `ParseObj` takes it apart: number, ` 0 obj`, value, `endobj`. */
  lemma ObjText(d: string, x: string)
    ensures var v := x + "\nendobj\n";
            var t := " 0 obj\n" + v;
            d + " 0 obj\n" + x + "\nendobj\n" == d + t
            && t == " " + ("0 obj\n" + v)
            && !PdfReader.StartsWith("0 obj\n" + v, "R") && !PdfReader.StartsWith("0 obj\n" + v, "0 R")
            && PdfReader.StartsWith(t, " 0 obj\n") && t[7..] == v
  {
    var v := x + "\nendobj\n";
    var u := "0 obj\n" + v;
    assert u[..1] == "0";
    assert u[..3][2] == 'o';
    PdfReader.Skip(" 0 obj\n", v);
  }

  lemma ObjUnfold(s: string, n: int, t: string, e: Elem)
    requires PdfReader.ParseElem(s) == Some((Int(n), t))
    requires PdfReader.StartsWith(t, " 0 obj\n") && PdfReader.ParseElem(t[7..]) == Some((e, "\nendobj\n"))
    ensures ParseObj(s) == Some(Obj(n, e))
  {
  }

  /**
    * `%PDF-M.m`, a newline, then `%` and four raw bytes (0xE2 0xE3 0xCF 0xD3) and a
    * newline: the comment of section 7.5.2 of ISO 32000-1 that marks the file as binary.
    */
  function RenderHeader(major: nat, minor: nat): seq<byte>
  {
    Encode("%PDF-" + IntToDecimal(major) + "." + IntToDecimal(minor) + "\n%") + [0xE2, 0xE3, 0xCF, 0xD3] + Encode("\n")
  }

  lemma {:induction false} DigitsAscii(s: string)
    requires AllDigits(s, 10)
    ensures IsAscii(s)
  {
    forall i | 0 <= i < |s| ensures s[i] as int < 0x80 {
      assert DigitValue(s[i], 10).Some?;
    }
  }

  lemma DecimalAscii(i: int)
    ensures IsAscii(IntToDecimal(i))
  {
    var m: nat := if i < 0 then -i else i;
    var d := Digits(m, 10);
    DigitsShape(m, 10);
    DigitsAscii(d);
    if i < 0 {
      assert forall k :: 1 <= k < |"-" + d| ==> ("-" + d)[k] == d[k - 1];
    }
  }

  /**
    * The header is `%PDF-`, the version as `major.minor` in decimal, a newline, then
    * `%`, the four marker bytes E2 E3 CF D3 written raw, and a newline.
    */
  lemma HeaderShape(major: nat, minor: nat)
    ensures var h := RenderHeader(major, minor);
      && |h| == |IntToDecimal(major)| + |IntToDecimal(minor)| + 13
      && h[..5] == [0x25, 0x50, 0x44, 0x46, 0x2D]
      && h[5..|h| - 7] == Encode(IntToDecimal(major) + "." + IntToDecimal(minor))
      && h[|h| - 7..|h| - 5] == [0x0A, 0x25]
      && h[|h| - 5..|h| - 1] == [0xE2, 0xE3, 0xCF, 0xD3]
      && h[|h| - 1] == 0x0A
  {
    DecimalAscii(major);
    DecimalAscii(minor);
    HeaderBytes(IntToDecimal(major), IntToDecimal(minor));
  }

  lemma HeaderBytes(a: string, b: string)
    requires IsAscii(a) && IsAscii(b)
    ensures var h := Encode("%PDF-" + a + "." + b + "\n%") + [0xE2, 0xE3, 0xCF, 0xD3] + Encode("\n");
      && |h| == |a| + |b| + 13
      && h[..5] == [0x25, 0x50, 0x44, 0x46, 0x2D]
      && h[5..|h| - 7] == Encode(a + "." + b)
      && h[|h| - 7..|h| - 5] == [0x0A, 0x25]
      && h[|h| - 5..|h| - 1] == [0xE2, 0xE3, 0xCF, 0xD3]
      && h[|h| - 1] == 0x0A
  {
    var v := a + "." + b;
    assert "%PDF-" + a + "." + b + "\n%" == "%PDF-" + v + "\n%";
    VersionAscii(a, b);
    EncodeAscii(v);
    EncodeThree("%PDF-", v, "\n%");
    AsciiBytes();
    HeaderLayout(Encode("%PDF-"), Encode(v), Encode("\n%"), Encode("\n"));
  }

  lemma AsciiBytes()
    ensures Encode("%PDF-") == [0x25, 0x50, 0x44, 0x46, 0x2D]
    ensures Encode("\n%") == [0x0A, 0x25]
    ensures Encode("\n") == [0x0A]
  {
    EncodeAscii("%PDF-");
    EncodeAscii("\n%");
    EncodeAscii("\n");
  }

  /** Where the parts of the header sit, once each is in bytes. */
  lemma HeaderLayout(p: seq<byte>, v: seq<byte>, q: seq<byte>, nl: seq<byte>)
    requires p == [0x25, 0x50, 0x44, 0x46, 0x2D] && q == [0x0A, 0x25] && nl == [0x0A]
    ensures var h := p + v + q + [0xE2, 0xE3, 0xCF, 0xD3] + nl;
      && |h| == |v| + 12
      && h[..5] == p && h[5..|h| - 7] == v && h[|h| - 7..|h| - 5] == q
      && h[|h| - 5..|h| - 1] == [0xE2, 0xE3, 0xCF, 0xD3] && h[|h| - 1] == 0x0A
  {
    var h := p + v + q + [0xE2, 0xE3, 0xCF, 0xD3] + nl;
    assert h[..5] == p;
    assert h[5..|h| - 7] == v;
    assert h[|h| - 7..|h| - 5] == q;
    assert h[|h| - 5..|h| - 1] == [0xE2, 0xE3, 0xCF, 0xD3];
  }

  lemma VersionAscii(a: string, b: string)
    requires IsAscii(a) && IsAscii(b)
    ensures IsAscii(a + "." + b)
  {
    var v := a + "." + b;
    forall i | 0 <= i < |v| ensures v[i] as int < 0x80 {
      if i < |a| {
        assert v[i] == a[i];
      } else if i > |a| {
        assert v[i] == b[i - |a| - 1];
      }
    }
  }

  function RenderXrefEntryUse(u: EntryUse): (r: string)
    ensures |r| == 1 && (r[0] == 'n' <==> u == InUseEntry) && (r[0] == 'f' <==> u == FreeEntry)
  {
    match u
    case FreeEntry => "f"
    case InUseEntry => "n"
  }

  /** A row: ten-digit offset, five-digit generation, `n` or `f`, a space and a newline, joined by spaces. */
  function RenderXrefEntry(e: XrefEntry): string
  {
    ZeroPadded(e.offset, 10) + " " + ZeroPadded(e.generation, 5) + " " + RenderXrefEntryUse(e.entryUse) + " " + "\n"
  }

  /** Reads a 20-byte row back. */
  function ParseXrefEntry(r: string): Option<XrefEntry>
  {
    if |r| != 20 || r[10] != ' ' || r[16] != ' ' || r[18..] != " \n" then None
    else
      match (ValueOf(r[..10], 10), ValueOf(r[11..16], 10))
      case (Some(off), Some(gen)) =>
        if r[17] == 'n' then Some(XrefEntry(off, gen, InUseEntry))
        else if r[17] == 'f' then Some(XrefEntry(off, gen, FreeEntry))
        else None
      case _ => None
  }

  /**
    * An offset and a generation that fit their fields make a row of exactly 20
    * characters, all ASCII and so 20 bytes in the document, that reads back.
    */
  lemma XrefEntryRoundTrip(e: XrefEntry)
    requires 0 <= e.offset < Pow(10, 10) && 0 <= e.generation < Pow(10, 5)
    ensures |RenderXrefEntry(e)| == 20
    ensures |Encode(RenderXrefEntry(e))| == 20
    ensures ParseXrefEntry(RenderXrefEntry(e)) == Some(e)
  {
    var a, b := ZeroPadded(e.offset, 10), ZeroPadded(e.generation, 5);
    var u := RenderXrefEntryUse(e.entryUse);
    ZeroPaddedField(e.offset, 10);
    ZeroPaddedField(e.generation, 5);
    RowText(a, b, u);
    DigitsAscii(a);
    DigitsAscii(b);
    RowAscii(a, b, u);
    EncodeAscii(RenderXrefEntry(e));
  }

  lemma RowAscii(a: string, b: string, u: string)
    requires IsAscii(a) && IsAscii(b) && |u| == 1 && u[0] as int < 0x80
    ensures IsAscii(a + " " + b + " " + u + " " + "\n")
  {
    var r := a + " " + b + " " + u + " " + "\n";
    forall i | 0 <= i < |r| ensures r[i] as int < 0x80 {
      if i < |a| {
        assert r[i] == a[i];
      } else if |a| < i < |a| + 1 + |b| {
        assert r[i] == b[i - |a| - 1];
      }
    }
  }

  /** Where the fields of a row sit in its 20 bytes. */
  predicate RowFields(r: string, a: string, b: string, u: char)
  {
    |r| == 20 && r[10] == ' ' && r[16] == ' ' && r[18..] == " \n" && r[..10] == a && r[11..16] == b && r[17] == u
  }

  lemma RowText(a: string, b: string, u: string)
    requires |a| == 10 && |b| == 5 && |u| == 1
    ensures RowFields(a + " " + b + " " + u + " " + "\n", a, b, u[0])
  {
    var r := a + " " + b + " " + u + " " + "\n";
    assert r[..10] == a;
    assert r[11..16] == b;
    assert r[18..] == " \n";
  }

  /** The row for the head of the free list is the literal `0000000000 65535 f \n`. */
  lemma FreeHeadRow()
    ensures RenderXrefEntry(XrefEntry(0, 65535, FreeEntry)) == "0000000000 65535 f \n"
  {
    ZeroOffsetField();
    FreeGenerationField();
  }

  lemma ZeroOffsetField()
    ensures ZeroPadded(0, 10) == "0000000000"
  {
    assert Digits(0, 10) == "0";
    assert Zeros(9) == "000000000";
  }

  lemma FreeGenerationField()
    ensures ZeroPadded(65535, 5) == "65535"
  {
    assert Digits(6, 10) == "6" && Digits(65, 10) == "65" && Digits(655, 10) == "655";
    assert Digits(6553, 10) == "6553";
    assert Digits(65535, 10) == "65535";
  }

  /** The rows, in order. */
  function XrefRows(xs: seq<XrefEntry>): seq<string>
  {
    seq(|xs|, k requires 0 <= k < |xs| => RenderXrefEntry(xs[k]))
  }

  /** `xref`, the subsection header `0 <count>`, then the rows. */
  function RenderXref(xs: seq<XrefEntry>): string
  {
    XrefHead(|xs|) + Concat(XrefRows(xs))
  }

  /** The subsection header declares one row more than the table holds. */
  function XrefHead(rows: nat): string
  {
    "xref\n0 " + IntToDecimal(rows + 1) + "\n"
  }

  /** Every offset fits ten digits and every generation five. */
  predicate RowsFit(xs: seq<XrefEntry>)
  {
    forall k :: 0 <= k < |xs| ==> 0 <= xs[k].offset < Pow(10, 10) && 0 <= xs[k].generation < Pow(10, 5)
  }

  lemma RowWidths(xs: seq<XrefEntry>)
    requires RowsFit(xs)
    ensures SameWidth(XrefRows(xs), 20)
  {
    forall i | 0 <= i < |XrefRows(xs)| ensures |XrefRows(xs)[i]| == 20 {
      XrefEntryRoundTrip(xs[i]);
    }
  }

  /** Every field in range: the table is its head and then a 20-byte row per entry, each of which reads back. */
  lemma XrefLayout(xs: seq<XrefEntry>, k: nat)
    requires RowsFit(xs) && k < |xs|
    ensures var p := |XrefHead(|xs|)|;
      && |RenderXref(xs)| == p + 20 * |xs|
      && ParseXrefEntry(RenderXref(xs)[p + 20 * k..p + 20 * k + 20]) == Some(xs[k])
  {
    XrefRowText(xs, k);
    assert XrefRows(xs)[k] == RenderXrefEntry(xs[k]);
    XrefEntryRoundTrip(xs[k]);
  }

  lemma XrefRowText(xs: seq<XrefEntry>, k: nat)
    requires RowsFit(xs) && k < |xs|
    ensures var p := |XrefHead(|xs|)|;
      && |RenderXref(xs)| == p + 20 * |xs|
      && RenderXref(xs)[p + 20 * k..p + 20 * k + 20] == XrefRows(xs)[k]
  {
    RowWidths(xs);
    FixedRowAt(RenderXref(xs), XrefHead(|xs|), XrefRows(xs), k);
    var p := |XrefHead(|xs|)|;
    assert |RenderXref(xs)| == p + 20 * |xs|;
    assert RenderXref(xs)[p + 20 * k..p + 20 * k + 20] == XrefRows(xs)[k];
  }

  /** After a head, rows of 20 characters each: row k starts 20 * k characters past the head. */
  lemma FixedRowAt(whole: string, head: string, rows: seq<string>, k: nat)
    requires whole == head + Concat(rows)
    requires SameWidth(rows, 20) && k < |rows|
    ensures |whole| == |head| + 20 * |rows|
    ensures whole[|head| + 20 * k..|head| + 20 * k + 20] == rows[k]
  {
    ConcatFixedWidth(rows, 20, k);
    RowAt(whole, head, Concat(rows), rows[k], 20 * k, 20);
  }

  lemma RowAt<T>(whole: seq<T>, head: seq<T>, body: seq<T>, row: seq<T>, q: nat, w: nat)
    requires whole == head + body && q + w <= |body| && body[q..q + w] == row
    ensures |whole| == |head| + |body| && whole[|head| + q..|head| + q + w] == row
  {
    assert whole[|head| + q..|head| + q + w] == body[q..q + w];
  }

  /** The count in the subsection header reads back as the number of entries plus one. */
  lemma XrefHeadCount(rows: nat)
    ensures var h := XrefHead(rows);
      |h| >= 9 && h[..7] == "xref\n0 " && ParseInt(h[7..|h| - 1]) == Some(rows + 1)
  {
    var h := XrefHead(rows);
    IntToDecimalRoundTrip(rows + 1);
    assert h[7..|h| - 1] == IntToDecimal(rows + 1);
  }

  /** The trailer dictionary: `/Size` and `/Root`, in that order. */
  function TrailerDict(t: Trailer): Elem
  {
    Dict([Entry("Size", Int(t.size)), Entry("Root", Ref(t.root))])
  }

  function RenderTrailer(t: Trailer): string
  {
    "trailer\n" + Render(TrailerDict(t)) + "\nstartxref\n" + Render(Int(t.startxref)) + "\n%%EOF\n"
  }

  /** The trailer's dictionary reads back with its size and root; the number after `startxref` reads back too. */
  lemma TrailerReadsBack(t: Trailer)
    ensures PdfReader.Parse(Render(TrailerDict(t))) == Some(Dict([Entry("Size", Int(t.size)), Entry("Root", Ref(t.root))]))
    ensures ParseInt(Render(Int(t.startxref))) == Some(t.startxref)
  {
    assert PdfReader.WellFormedKey("Size") && PdfReader.WellFormedKey("Root");
    PdfReader.RenderRoundTrip(TrailerDict(t));
    IntToDecimalRoundTrip(t.startxref);
  }

  // ------------------------------------------------------------------
  // The whole file
  // ------------------------------------------------------------------

  function Header(file: PdfFile): seq<byte>
  {
    RenderHeader(file.version.0, file.version.1)
  }

  function RenderedObjects(objs: seq<Obj>): seq<string>
  {
    seq(|objs|, k requires 0 <= k < |objs| => RenderObj(objs[k]))
  }

  /** The byte offset at which the k-th object of the list begins: the header's length plus the lengths of the objects before it. */
  function ObjectStart(file: PdfFile, k: nat): nat
    requires k <= |file.objects|
  {
    RunningStart(|Header(file)|, RenderedObjects(file.objects), k)
  }

  /** Where each object ends, which is what `RenderPdf` records. */
  function Ends(file: PdfFile): seq<int>
  {
    RunningEnds(|Header(file)|, RenderedObjects(file.objects), |file.objects|)
  }

  /** `start` plus the byte lengths of the first k texts, added one at a time. */
  function RunningStart(start: nat, texts: seq<string>, k: nat): nat
    requires k <= |texts|
  {
    if k == 0 then start else RunningStart(start, texts, k - 1) + ByteLength(texts[k - 1])
  }

  /** The offsets after each of the first k texts, recorded one after another. */
  function RunningEnds(start: nat, texts: seq<string>, k: nat): (r: seq<int>)
    requires k <= |texts|
    ensures |r| == k
  {
    if k == 0 then [] else RunningEnds(start, texts, k - 1) + [RunningStart(start, texts, k)]
  }

  /** The head of the free list, then one in-use row per recorded offset except the last. */
  function XrefTable(file: PdfFile): seq<XrefEntry>
    requires |file.objects| > 0
  {
    FreeHeadThen(Ends(file))
  }

  function FreeHeadThen(ends: seq<int>): seq<XrefEntry>
    requires |ends| > 0
  {
    [XrefEntry(0, 65535, FreeEntry)] + seq(|ends| - 1, k requires 0 <= k < |ends| - 1 => XrefEntry(ends[k], 0, InUseEntry))
  }

  lemma FreeHeadThenRow(ends: seq<int>, k: nat)
    requires 1 <= k < |ends|
    ensures |FreeHeadThen(ends)| == |ends| && FreeHeadThen(ends)[k] == XrefEntry(ends[k - 1], 0, InUseEntry)
  {
  }

  function TrailerOf(file: PdfFile): Trailer
    requires |file.objects| > 0
  {
    Trailer(file.catalog, |file.objects| + 1, Ends(file)[|file.objects| - 1])
  }

  /** The objects' bytes, one after another. */
  function Body(file: PdfFile): seq<byte>
  {
    Encode(Concat(RenderedObjects(file.objects)))
  }

  /** The cross-reference table and the trailer. */
  function Tail(file: PdfFile): seq<byte>
    requires |file.objects| > 0
  {
    Encode(RenderXref(XrefTable(file))) + Encode(RenderTrailer(TrailerOf(file)))
  }

  /** The document: header, objects, cross-reference table, trailer. */
  function Document(file: PdfFile): seq<byte>
    requires |file.objects| > 0
  {
    Header(file) + Body(file) + Tail(file)
  }

  /** The running sum is the length of the header and of the joined text of the objects before k. */
  lemma StartIsPrefix(file: PdfFile, k: nat)
    requires k <= |file.objects|
    ensures ObjectStart(file, k) == |Header(file)| + ByteLength(Concat(RenderedObjects(file.objects)[..k]))
  {
    RunningStartIsPrefix(|Header(file)|, RenderedObjects(file.objects), k);
  }

  /** The running sum is the byte length of the joined texts before k. */
  lemma {:induction false} RunningStartIsPrefix(start: nat, texts: seq<string>, k: nat)
    requires k <= |texts|
    ensures RunningStart(start, texts, k) == start + ByteLength(Concat(texts[..k]))
  {
    if k == 0 {
      assert texts[..0] == [];
    } else {
      RunningStartIsPrefix(start, texts, k - 1);
      PrefixBytes(texts, k);
    }
  }

  lemma PrefixBytes(ss: seq<string>, k: nat)
    requires 0 < k <= |ss|
    ensures ByteLength(Concat(ss[..k])) == ByteLength(Concat(ss[..k - 1])) + ByteLength(ss[k - 1])
  {
    assert ss[..k][..k - 1] == ss[..k - 1];
    EncodeAppend(Concat(ss[..k - 1]), ss[k - 1]);
  }

  lemma TakeAll<T>(s: seq<T>)
    ensures s[..|s|] == s
  {}

  lemma EndsAt(file: PdfFile, i: nat)
    requires i < |file.objects|
    ensures |Ends(file)| == |file.objects| && Ends(file)[i] == ObjectStart(file, i + 1)
  {
    RunningEndsAt(|Header(file)|, RenderedObjects(file.objects), |file.objects|, i);
  }

  lemma {:induction false} RunningEndsAt(start: nat, texts: seq<string>, k: nat, i: nat)
    requires i < k <= |texts|
    ensures RunningEnds(start, texts, k)[i] == RunningStart(start, texts, i + 1)
  {
    if i < k - 1 {
      RunningEndsAt(start, texts, k - 1, i);
    }
  }

  lemma PrefixStep<T>(s: seq<T>, i: nat)
    requires i < |s|
    ensures s[..i + 1] == s[..i] + [s[i]]
  {
  }

  lemma FreeHeadThenStep(ends: seq<int>, i: nat, xref: seq<XrefEntry>)
    requires i + 1 < |ends| && xref == FreeHeadThen(ends)[..i + 1]
    ensures xref + [XrefEntry(ends[i], 0, InUseEntry)] == FreeHeadThen(ends)[..i + 2]
  {
    var t := FreeHeadThen(ends);
    assert t[i + 1] == XrefEntry(ends[i], 0, InUseEntry);
    PrefixStep(t, i + 1);
  }

  /**
    * Writes the file. It adds up the objects' byte lengths after the header and records,
    * after each object, where that object ends; the cross-reference table gets the head
    * of the free list and then every recorded end but the last, and `startxref` gets the
    * last one. A file with no objects has no last offset, so at least one is required.
    */
  method RenderPdf(file: PdfFile) returns (out: seq<byte>)
    requires |file.objects| > 0
    ensures out == Document(file)
  {
    var header := RenderHeader(file.version.0, file.version.1);
    var objects := RenderedObjects(file.objects);
    var offsets := RecordEnds(|header|, objects);
    var xref := CollectXref(offsets);
    var trailer := RenderTrailer(Trailer(file.catalog, |file.objects| + 1, offsets[|offsets| - 1]));
    out := header + Encode(Concat(objects)) + (Encode(RenderXref(xref)) + Encode(trailer));
  }

  /** The offsets loop: starting after the header, adds each object's byte length and records the sum. */
  method RecordEnds(start: nat, objects: seq<string>) returns (offsets: seq<int>)
    ensures offsets == RunningEnds(start, objects, |objects|)
  {
    var prev := start;
    offsets := [];
    for i := 0 to |objects|
      invariant prev == RunningStart(start, objects, i)
      invariant offsets == RunningEnds(start, objects, i)
    {
      prev := ByteLength(objects[i]) + prev;
      offsets := offsets + [prev];
    }
  }

  /** The table loop: the head of the free list, then an in-use row for every recorded offset but the last. */
  method CollectXref(offsets: seq<int>) returns (xref: seq<XrefEntry>)
    requires |offsets| > 0
    ensures xref == FreeHeadThen(offsets)
  {
    xref := [XrefEntry(0, 65535, FreeEntry)];
    if |offsets| > 1 {
      for i := 0 to |offsets| - 1
        invariant xref == FreeHeadThen(offsets)[..i + 1]
      {
        FreeHeadThenStep(offsets, i, xref);
        xref := xref + [XrefEntry(offsets[i], 0, InUseEntry)];
      }
    }
    assert |FreeHeadThen(offsets)| == |offsets|;
  }

  // ------------------------------------------------------------------
  // Where things are in the document
  // ------------------------------------------------------------------

  lemma SliceMiddle<T>(h: seq<T>, b: seq<T>, o: seq<T>, a: seq<T>, t: seq<T>)
    ensures (h + (b + o + a) + t)[|h| + |b|..|h| + |b| + |o|] == o
  {
    assert (h + (b + o + a) + t)[|h| + |b|..|h| + |b| + |o|] == (b + o + a)[|b|..|b| + |o|];
  }

  lemma ConcatOne(x: string)
    ensures Concat([x]) == x
  {
    assert [x][..0] == [];
  }

  lemma ConcatSplit(ss: seq<string>, k: nat)
    requires k < |ss|
    ensures Concat(ss) == Concat(ss[..k]) + ss[k] + Concat(ss[k + 1..])
  {
    var before, after := ss[..k], ss[k + 1..];
    SplitAt(ss, k);
    ConcatAppend(before + [ss[k]], after);
    ConcatAppend(before, [ss[k]]);
    ConcatOne(ss[k]);
  }

  lemma SplitAt<T>(s: seq<T>, k: nat)
    requires k < |s|
    ensures s == s[..k] + [s[k]] + s[k + 1..]
  {
  }

  lemma EncodeThree(x: string, y: string, z: string)
    ensures Encode(x + y + z) == Encode(x) + Encode(y) + Encode(z)
  {
    EncodeAppend(x + y, z);
    EncodeAppend(x, y);
  }

  /** The joined text of the objects is the text before object k, object k, and the text after it. */
  lemma BodySplit(objects: seq<string>, k: nat)
    requires k < |objects|
    ensures Encode(Concat(objects))
      == Encode(Concat(objects[..k])) + Encode(objects[k]) + Encode(Concat(objects[k + 1..]))
  {
    ConcatSplit(objects, k);
    EncodeThree(Concat(objects[..k]), objects[k], Concat(objects[k + 1..]));
  }

  /** Each object's bytes sit between its start and the next object's start. */
  lemma ObjectAt(file: PdfFile, k: nat)
    requires k < |file.objects|
    ensures ObjectStart(file, k) <= ObjectStart(file, k + 1) <= |Document(file)|
      && Document(file)[ObjectStart(file, k)..ObjectStart(file, k + 1)] == Encode(RenderObj(file.objects[k]))
  {
    var objects := RenderedObjects(file.objects);
    var h, b, o, a := Header(file), Encode(Concat(objects[..k])), Encode(objects[k]), Encode(Concat(objects[k + 1..]));
    ObjectBounds(file, k);
    DocumentSplit(file, k);
    Placement(Document(file), h, b, o, a, Tail(file), ObjectStart(file, k), ObjectStart(file, k + 1));
  }

  lemma Placement<T>(d: seq<T>, h: seq<T>, b: seq<T>, o: seq<T>, a: seq<T>, t: seq<T>, lo: nat, hi: nat)
    requires d == h + (b + o + a) + t && lo == |h| + |b| && hi == lo + |o|
    ensures lo <= hi <= |d| && d[lo..hi] == o
  {
    SliceMiddle(h, b, o, a, t);
  }

  /** Object k begins after the header and the objects before it, and ends after its own bytes. */
  lemma ObjectBounds(file: PdfFile, k: nat)
    requires k < |file.objects|
    ensures var objects := RenderedObjects(file.objects);
      && ObjectStart(file, k) == |Header(file)| + |Encode(Concat(objects[..k]))|
      && ObjectStart(file, k + 1) == ObjectStart(file, k) + |Encode(objects[k])|
      && objects[k] == RenderObj(file.objects[k])
  {
    StartIsPrefix(file, k);
  }

  lemma DocumentSplit(file: PdfFile, k: nat)
    requires k < |file.objects|
    ensures var objects := RenderedObjects(file.objects);
      Document(file) == Header(file) + (Encode(Concat(objects[..k])) + Encode(objects[k]) + Encode(Concat(objects[k + 1..]))) + Tail(file)
  {
    BodySplit(RenderedObjects(file.objects), k);
  }

  /** The bytes at offset `at` of `d` spell the `xref` keyword and its newline. */
  predicate XrefKeywordAt(d: seq<byte>, at: int)
  {
    0 <= at && at + 5 <= |d| && d[at..at + 5] == Encode("xref\n")
  }

  /** `startxref` holds the offset at which the `xref` keyword begins: just after the last object. */
  lemma StartXrefLocatesXref(file: PdfFile)
    requires |file.objects| > 0
    ensures XrefKeywordAt(Document(file), TrailerOf(file).startxref)
  {
    LastEnd(file);
    TailStartsWithXref(file);
    KeywordAfter(Document(file), Header(file), Body(file), Tail(file), TrailerOf(file).startxref);
  }

  lemma KeywordAfter(d: seq<byte>, h: seq<byte>, b: seq<byte>, t: seq<byte>, at: int)
    requires d == h + b + t
    requires at == |h| + |b|
    requires XrefKeywordAt(t, 0)
    ensures XrefKeywordAt(d, at)
  {
    KeywordWidth();
    Locate(d, h + b, t, at, Encode("xref\n"), 5);
  }

  lemma Locate<T>(d: seq<T>, pre: seq<T>, t: seq<T>, at: int, key: seq<T>, n: nat)
    requires d == pre + t && at == |pre| && |key| == n && |t| >= n && t[..n] == key
    ensures 0 <= at && at + n <= |d| && d[at..at + n] == key
  {
    assert d[at..at + n] == t[..n];
  }

  lemma LastEnd(file: PdfFile)
    requires |file.objects| > 0
    ensures TrailerOf(file).startxref == |Header(file)| + |Body(file)|
  {
    EndsAt(file, |file.objects| - 1);
    BodyEnd(file);
  }

  /** After the last object comes the end of the body. */
  lemma BodyEnd(file: PdfFile)
    ensures ObjectStart(file, |file.objects|) == |Header(file)| + |Body(file)|
  {
    TakeAll(RenderedObjects(file.objects));
    StartIsPrefix(file, |file.objects|);
  }

  lemma TailStartsWithXref(file: PdfFile)
    requires |file.objects| > 0
    ensures XrefKeywordAt(Tail(file), 0)
  {
    var xt, tt := RenderXref(XrefTable(file)), RenderTrailer(TrailerOf(file));
    XrefKeyword(XrefTable(file));
    EncodePrefix("xref\n", xt, tt);
    KeywordWidth();
    assert Tail(file) == Encode(xt) + Encode(tt);
  }

  /** The table's text opens with the `xref` keyword and a newline. */
  lemma XrefKeyword(xs: seq<XrefEntry>)
    ensures |RenderXref(xs)| >= 5 && RenderXref(xs)[..5] == "xref\n"
  {
    HeadText(IntToDecimal(|xs| + 1), Concat(XrefRows(xs)));
  }

  lemma HeadText(d: string, rest: string)
    ensures |"xref\n0 " + d + "\n" + rest| >= 5 && ("xref\n0 " + d + "\n" + rest)[..5] == "xref\n"
  {
    var t := "xref\n0 " + d + "\n" + rest;
    assert t == "xref\n" + ("0 " + d + "\n" + rest);
  }

  /** Encoding keeps a textual prefix as a byte prefix of everything that follows. */
  lemma EncodePrefix(p: string, x: string, y: string)
    requires |x| >= |p| && x[..|p|] == p
    ensures |Encode(x) + Encode(y)| >= |Encode(p)| && (Encode(x) + Encode(y))[..|Encode(p)|] == Encode(p)
  {
    var r := x[|p|..];
    Rejoin(x, |p|);
    EncodeAppend(p, r);
    PrefixOf(Encode(x), Encode(p), Encode(r), Encode(y));
  }

  lemma PrefixOf<T>(a: seq<T>, p: seq<T>, r: seq<T>, y: seq<T>)
    requires a == p + r
    ensures |a + y| >= |p| && (a + y)[..|p|] == p
  {
    assert a + y == p + (r + y);
  }

  lemma KeywordWidth()
    ensures |Encode("xref\n")| == 5
  {
    EncodeAscii("xref\n");
  }

  /**
    * The table has one row fewer than its header declares, and its rows are shifted:
    * row k (1 <= k < N) holds the start of the list's object k, counted from 0, which is
    * the end of object k - 1. The first object's start is never recorded.
    */
  lemma XrefTableShape(file: PdfFile)
    requires |file.objects| > 0
    ensures |XrefTable(file)| == |file.objects|
    ensures XrefTable(file)[0] == XrefEntry(0, 65535, FreeEntry)
    ensures forall k :: 1 <= k < |file.objects| ==> XrefTable(file)[k] == XrefEntry(ObjectStart(file, k), 0, InUseEntry)
    ensures forall k :: 1 <= k < |file.objects| ==> XrefTable(file)[k].offset > ObjectStart(file, 0)
  {
    forall k | 1 <= k < |file.objects|
      ensures XrefTable(file)[k] == XrefEntry(ObjectStart(file, k), 0, InUseEntry)
      ensures ObjectStart(file, k) > ObjectStart(file, 0)
    {
      XrefRow(file, k);
      StartsIncrease(file, k);
    }
  }

  /**
    * The counts agree: the trailer's `/Size` and the table's subsection header both
    * read back as the number of objects plus one, and `/Root` as the catalog.
    */
  lemma CountsAgree(file: PdfFile)
    requires |file.objects| > 0
    ensures var h := XrefHead(|XrefTable(file)|);
      && |h| >= 9 && ParseInt(h[7..|h| - 1]) == Some(|file.objects| + 1)
      && PdfReader.Parse(Render(TrailerDict(TrailerOf(file))))
         == Some(Dict([Entry("Size", Int(|file.objects| + 1)), Entry("Root", Ref(file.catalog))]))
  {
    assert |XrefTable(file)| == |file.objects|;
    XrefHeadCount(|file.objects|);
    TrailerReadsBack(TrailerOf(file));
  }

  lemma XrefRow(file: PdfFile, k: nat)
    requires 1 <= k < |file.objects|
    ensures |XrefTable(file)| == |file.objects| && XrefTable(file)[k] == XrefEntry(ObjectStart(file, k), 0, InUseEntry)
  {
    RowOfRunningEnds(|Header(file)|, RenderedObjects(file.objects), k);
  }

  lemma RowOfRunningEnds(start: nat, texts: seq<string>, k: nat)
    requires 1 <= k < |texts|
    ensures var xs := FreeHeadThen(RunningEnds(start, texts, |texts|));
      |xs| == |texts| && xs[k] == XrefEntry(RunningStart(start, texts, k), 0, InUseEntry)
  {
    RunningEndsAt(start, texts, |texts|, k - 1);
    FreeHeadThenRow(RunningEnds(start, texts, |texts|), k);
  }

  lemma {:induction false} StartsIncrease(file: PdfFile, k: nat)
    requires 1 <= k <= |file.objects|
    ensures ObjectStart(file, k) > ObjectStart(file, 0)
  {
    assert |Encode(RenderObj(file.objects[k - 1]))| >= |RenderObj(file.objects[k - 1])| > 0;
    if k > 1 {
      StartsIncrease(file, k - 1);
    }
  }

  /**
    * Seeking to the offset in row k (1 <= k < N) finds the list's object k, not object
    * k - 1: a reader that takes row k for the object numbered k, as section 7.5.4 of
    * ISO 32000-1 lays the table out, lands one object too far.
    */
  lemma XrefRowFindsNextObject(file: PdfFile, k: nat)
    requires 1 <= k < |file.objects|
    ensures XrefTable(file)[k].offset == ObjectStart(file, k)
    ensures ObjectStart(file, k) <= ObjectStart(file, k + 1) <= |Document(file)|
      && Document(file)[ObjectStart(file, k)..ObjectStart(file, k + 1)] == Encode(RenderObj(file.objects[k]))
  {
    XrefRow(file, k);
    ObjectAt(file, k);
  }

}
