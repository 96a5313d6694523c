/**
  * `TextToPdf`: lines of text, grouped into pages, become a file of fixed layout.
  * Object 1 is the catalog, 2 the page tree, 3 the font resources (Times-Roman as
  * `/F0`); for n pages, objects 4 .. 3 + n are the pages and 4 + n .. 3 + 2n their
  * content streams, page i drawing the lines of the i-th group top-down.
  */
module Builder {
  import opened Options
  import opened PdfElem
  import opened PdfFile
  import PdfReader

  /** Page setup of every content stream: origin at (50, 770), text object begun, font F0 at 12 points, leading 16. */
  const Preamble: string := "1. 0. 0. 1. 50. 770. cm\nBT\n/F0 12 Tf\n16 TL\n"

  /** One line: the text as a string, shown, then a move to the next line. */
  function ShowLine(t: string): string
  {
    Render(String(t)) + " Tj T*\n"
  }

  /** The lines shown one after another. */
  function ShowLines(text: seq<string>): string
  {
    if text == [] then [] else ShowLine(text[0]) + ShowLines(text[1..])
  }

  function PageContent(text: seq<string>): string
  {
    Preamble + ShowLines(text) + "ET"
  }

  // ------------------------------------------------------------------
  // The layout
  // ------------------------------------------------------------------

  function CatalogObj(): Obj
  {
    Obj(1, Dict([Entry("Type", Name("Catalog")), Entry("Pages", Ref(2))]))
  }

  function PagesObj(n: nat): Obj
  {
    Obj(2, Dict([
      Entry("Type", Name("Pages")),
      Entry("Kids", Array(seq(n, i => Ref(4 + i)))),
      Entry("Count", Int(n))]))
  }

  function FontObj(): Obj
  {
    var f0 := [Entry("Type", Name("Font")), Entry("BaseFont", Name("Times-Roman")), Entry("Subtype", Name("Type1"))];
    Obj(3, Dict([Entry("Font", Dict([Entry("F0", Dict(f0))]))]))
  }

  /** Page `num` of a file with n pages; its contents are object `num + n`. */
  function PageObj(num: int, n: nat): Obj
  {
    Obj(num, Dict([
      Entry("Type", Name("Page")),
      Entry("Parent", Ref(2)),
      Entry("Resources", Ref(3)),
      Entry("MediaBox", Array([Int(0), Int(0), Int(595), Int(842)])),
      Entry("Contents", Ref(num + n))]))
  }

  function ContentObj(num: int, text: seq<string>): Obj
  {
    Obj(num, Stream(PageContent(text)))
  }

  /** The file for the given pages, as the builder lays it out. */
  function Layout(texts: seq<seq<string>>): PdfFile
  {
    var n := |texts|;
    PdfFile((1, 7), 1,
      [CatalogObj(), PagesObj(n), FontObj()]
      + seq(n, i => PageObj(4 + i, n))
      + seq(n, i requires 0 <= i < n => ContentObj(4 + n + i, texts[i])))
  }

  /**
    * Builds the file: the three fixed objects, then a page object per group of lines,
    * then a content stream per group.
    */
  method TextToPdf(texts: seq<seq<string>>) returns (file: PdfFile)
    ensures file == Layout(texts)
  {
    var n := |texts|;
    var m := 4;
    var catalog := CatalogObj();
    var topPage := PagesObj(n);
    var font := FontObj();

    var pages: seq<Obj> := [];
    for i := m to m + n
      invariant pages == seq(i - m, k => PageObj(m + k, n))
    {
      assert seq(i + 1 - m, k => PageObj(m + k, n)) == seq(i - m, k => PageObj(m + k, n)) + [PageObj(i, n)];
      pages := pages + [PageObj(i, n)];
    }

    var contents: seq<Obj> := [];
    for i := m + n to m + 2 * n
      invariant contents == seq(i - m - n, k requires 0 <= k < n => ContentObj(m + n + k, texts[k]))
    {
      var text := texts[i - m - n];
      var stream0 := Preamble;
      var stream1 := ShowLines(text);
      assert Obj(i, Stream(stream0 + stream1 + "ET")) == ContentObj(m + n + (i - m - n), texts[i - m - n]);
      contents := contents + [Obj(i, Stream(stream0 + stream1 + "ET"))];
    }

    var objlist := [catalog, topPage, font] + pages + contents;
    file := PdfFile((1, 7), 1, objlist);
  }

  // ------------------------------------------------------------------
  // What the layout promises
  // ------------------------------------------------------------------

  /** The objects are numbered 1 to 3 + 2n, in list order; the catalog is first. */
  lemma NumberedInOrder(texts: seq<seq<string>>)
    ensures var objs := Layout(texts).objects;
      && |objs| == 3 + 2 * |texts|
      && (forall k :: 0 <= k < |objs| ==> objs[k].n == k + 1)
      && Layout(texts).catalog == objs[0].n
      && objs[0].elem.Dict? && objs[0].elem.entries[0] == Entry("Type", Name("Catalog"))
  {
    var n := |texts|;
    var objs := Layout(texts).objects;
    forall k | 3 <= k < |objs| ensures objs[k].n == k + 1 {
      if k < 3 + n {
        assert objs[k] == PageObj(4 + (k - 3), n);
      } else {
        assert objs[k] == ContentObj(4 + n + (k - 3 - n), texts[k - 3 - n]);
      }
    }
  }

  /** Every reference in `e` is to an object numbered lo .. hi. */
  predicate RefsWithin(e: Elem, lo: int, hi: int)
    decreases e
  {
    match e
    case Ref(r) => lo <= r <= hi
    case Array(items) => forall i | 0 <= i < |items| :: RefsWithin(items[i], lo, hi)
    case Dict(es) => forall i | 0 <= i < |es| :: RefsWithin(es[i].value, lo, hi)
    case _ => true
  }

  /** No reference dangles: each names one of the file's own objects. */
  lemma RefsResolve(texts: seq<seq<string>>)
    ensures var objs := Layout(texts).objects;
      forall k :: 0 <= k < |objs| ==> RefsWithin(objs[k].elem, 1, |objs|)
  {
    var n := |texts|;
    var objs := Layout(texts).objects;
    var hi := |objs|;
    forall k | 0 <= k < |objs| ensures RefsWithin(objs[k].elem, 1, hi) {
      if k == 1 {
        var kids := seq(n, i => Ref(4 + i));
        assert forall i | 0 <= i < |kids| :: RefsWithin(kids[i], 1, hi);
        assert RefsWithin(Array(kids), 1, hi);
      } else if k == 2 {
        var f0 := [Entry("Type", Name("Font")), Entry("BaseFont", Name("Times-Roman")), Entry("Subtype", Name("Type1"))];
        assert RefsWithin(Dict(f0), 1, hi);
        assert RefsWithin(Dict([Entry("F0", Dict(f0))]), 1, hi);
      } else if 3 <= k < 3 + n {
        assert objs[k] == PageObj(4 + (k - 3), n);
        assert RefsWithin(Array([Int(0), Int(0), Int(595), Int(842)]), 1, hi);
      } else if k >= 3 + n {
        assert objs[k] == ContentObj(4 + n + (k - 3 - n), texts[k - 3 - n]);
      }
    }
  }

  /** The value stored under `key`: the first entry with that key. */
  function Lookup(es: seq<Entry>, key: string): Option<Elem>
  {
    if es == [] then None
    else if es[0].key == key then Some(es[0].value)
    else Lookup(es[1..], key)
  }

  lemma {:induction false} LookupAt(es: seq<Entry>, j: nat, key: string)
    requires j < |es| && es[j].key == key
    requires forall l :: 0 <= l < j ==> es[l].key != key
    ensures Lookup(es, key) == Some(es[j].value)
  {
    if j > 0 {
      assert forall l :: 0 <= l < j - 1 ==> es[1..][l].key != key by {
        forall l | 0 <= l < j - 1 ensures es[1..][l].key != key {
          assert es[1..][l] == es[l + 1];
        }
      }
      LookupAt(es[1..], j - 1, key);
    }
  }

  /**
    * The page tree (object 2) has Count n and lists the pages 4 .. 3 + n as its Kids, in
    * order, which is the empty array when there are no pages. Page i (0 <= i < n) is
    * object 4 + i; it names the tree as its parent, object 3 as its resources, and
    * object 4 + n + i as its contents, which is the stream of the i-th group of lines.
    */
  lemma PageTree(texts: seq<seq<string>>)
    ensures var n, objs := |texts|, Layout(texts).objects;
      && objs[1].n == 2 && objs[1].elem.Dict?
      && Lookup(objs[1].elem.entries, "Type") == Some(Name("Pages"))
      && Lookup(objs[1].elem.entries, "Count") == Some(Int(n))
      && Lookup(objs[1].elem.entries, "Kids") == Some(Array(seq(n, i => Ref(4 + i))))
      && forall i :: 0 <= i < n ==> PageLinked(texts, i)
  {
    var n, objs := |texts|, Layout(texts).objects;
    var tree := objs[1].elem.entries;
    LookupAt(tree, 0, "Type");
    LookupAt(tree, 1, "Kids");
    LookupAt(tree, 2, "Count");
    forall i | 0 <= i < n ensures PageLinked(texts, i) {
      PageLinks(texts, i);
    }
  }

  /** With no pages there are only the three fixed objects, and the tree has no Kids and Count 0. */
  lemma NoPages()
    ensures var objs := Layout([]).objects;
      && |objs| == 3
      && Lookup(objs[1].elem.entries, "Count") == Some(Int(0))
      && Lookup(objs[1].elem.entries, "Kids") == Some(Array([]))
  {
    PageTree([]);
    assert seq(0, i => Ref(4 + i)) == [];
  }

  /** Page i is object 4 + i, and links to the tree, the resources and its own content stream. */
  predicate PageLinked(texts: seq<seq<string>>, i: nat)
    requires i < |texts|
  {
    var n, objs := |texts|, Layout(texts).objects;
    && objs[3 + i].n == 4 + i && objs[3 + i].elem.Dict?
    && Lookup(objs[3 + i].elem.entries, "Type") == Some(Name("Page"))
    && Lookup(objs[3 + i].elem.entries, "Parent") == Some(Ref(objs[1].n))
    && Lookup(objs[3 + i].elem.entries, "Resources") == Some(Ref(objs[2].n))
    && Lookup(objs[3 + i].elem.entries, "MediaBox") == Some(Array([Int(0), Int(0), Int(595), Int(842)]))
    && Lookup(objs[3 + i].elem.entries, "Contents") == Some(Ref(objs[3 + n + i].n))
    && objs[3 + n + i].elem == Stream(PageContent(texts[i]))
  }

  lemma PageLinks(texts: seq<seq<string>>, i: nat)
    requires i < |texts|
    ensures PageLinked(texts, i)
  {
    var n, objs := |texts|, Layout(texts).objects;
    assert objs[3 + i] == PageObj(4 + i, n);
    assert objs[3 + n + i] == ContentObj(4 + n + i, texts[i]);
    PageEntries(4 + i, n);
  }

  /** The entries of page `num`, looked up by key. */
  lemma PageEntries(num: int, n: nat)
    ensures var page := PageObj(num, n).elem.entries;
      && Lookup(page, "Type") == Some(Name("Page"))
      && Lookup(page, "Parent") == Some(Ref(2))
      && Lookup(page, "Resources") == Some(Ref(3))
      && Lookup(page, "MediaBox") == Some(Array([Int(0), Int(0), Int(595), Int(842)]))
      && Lookup(page, "Contents") == Some(Ref(num + n))
  {
    var page := PageObj(num, n).elem.entries;
    LookupAt(page, 0, "Type");
    LookupAt(page, 1, "Parent");
    LookupAt(page, 2, "Resources");
    LookupAt(page, 3, "MediaBox");
    LookupAt(page, 4, "Contents");
  }

  // ------------------------------------------------------------------
  // Reading the lines back from a content stream
  // ------------------------------------------------------------------

  /** Reads shown lines back: strings each followed by ` Tj T*` and a newline, to the end of the text. */
  function ReadLines(s: string): Option<seq<string>>
    decreases |s|
  {
    if s == [] then Some([])
    else
      match PdfReader.ParseElem(s)
      case Some((String(t), rest)) =>
        if !PdfReader.StartsWith(rest, " Tj T*\n") then None
        else
          (match ReadLines(rest[7..])
           case Some(more) => Some([t] + more)
           case None => None)
      case _ => None
  }

  /** The shown lines read back as the lines, in order: no text is lost, split or reordered. */
  lemma {:induction false} ShowLinesReadBack(text: seq<string>)
    ensures ReadLines(ShowLines(text)) == Some(text)
  {
    if text != [] {
      var t := text[0];
      var more := ShowLines(text[1..]);
      ShowLineParses(t, more);
      PdfReader.Skip(" Tj T*\n", more);
      ShowLinesReadBack(text[1..]);
      assert [t] + text[1..] == text;
    }
  }

  /** A shown line parses as its string, leaving the show operators and what follows. */
  lemma ShowLineParses(t: string, more: string)
    ensures PdfReader.ParseElem(ShowLine(t) + more) == Some((String(t), " Tj T*\n" + more))
  {
    var tail := " Tj T*\n" + more;
    TailTerminates(more);
    PdfReader.RoundTrip(String(t), tail);
    assert ShowLine(t) + more == Render(String(t)) + tail;
  }

  lemma TailTerminates(more: string)
    ensures PdfReader.Terminates(" Tj T*\n" + more)
  {
    var u := "Tj T*\n" + more;
    assert " Tj T*\n" + more == " " + u;
    assert u[..1] == "T";
    assert u[..3][0] == 'T';
    PdfReader.TerminatesSpace(u);
  }

  /** A page's content stream is the preamble, the page's lines, and `ET`, and the lines read back. */
  lemma PageContentLines(texts: seq<seq<string>>, i: nat)
    requires i < |texts|
    ensures var c := Layout(texts).objects[3 + |texts| + i].elem.content;
      && |c| >= |Preamble| + 2
      && c[..|Preamble|] == Preamble
      && c[|c| - 2..] == "ET"
      && ReadLines(c[|Preamble|..|c| - 2]) == Some(texts[i])
  {
    var n := |texts|;
    assert Layout(texts).objects[3 + n + i] == ContentObj(4 + n + i, texts[i]);
    var body := ShowLines(texts[i]);
    var c := Preamble + body + "ET";
    assert c[..|Preamble|] == Preamble;
    assert c[|Preamble|..|c| - 2] == body;
    ShowLinesReadBack(texts[i]);
  }

  // ------------------------------------------------------------------
  // The layout once written
  // ------------------------------------------------------------------

  /** Every object of the layout reads back from its text. */
  lemma LayoutObjectsReadBack(texts: seq<seq<string>>)
    ensures var objs := Layout(texts).objects;
      forall k :: 0 <= k < |objs| ==> ParseObj(RenderObj(objs[k])) == Some(objs[k])
  {
    var objs := Layout(texts).objects;
    LayoutWellFormed(texts);
    forall k | 0 <= k < |objs| ensures ParseObj(RenderObj(objs[k])) == Some(objs[k]) {
      ObjReadsBack(objs[k]);
    }
  }

  /** Every object's value is in the subset the reader reads back. */
  predicate ObjectsWellFormed(objs: seq<Obj>)
  {
    forall k :: 0 <= k < |objs| ==> PdfReader.WellFormed(objs[k].elem)
  }

  lemma LayoutWellFormed(texts: seq<seq<string>>)
    ensures ObjectsWellFormed(Layout(texts).objects)
  {
    var n := |texts|;
    FixedWellFormed(n);
    PageListWellFormed(n);
    ContentListWellFormed(texts);
    ObjectsWellFormedConcat([CatalogObj(), PagesObj(n), FontObj()], seq(n, i => PageObj(4 + i, n)),
      seq(n, i requires 0 <= i < n => ContentObj(4 + n + i, texts[i])));
  }

  lemma FixedWellFormed(n: nat)
    ensures ObjectsWellFormed([CatalogObj(), PagesObj(n), FontObj()])
  {
    CatalogWellFormed();
    PagesWellFormed(n);
    FontWellFormed();
  }

  lemma PageListWellFormed(n: nat)
    ensures ObjectsWellFormed(seq(n, i => PageObj(4 + i, n)))
  {
    forall num | 4 <= num < 4 + n ensures PdfReader.WellFormed(PageObj(num, n).elem) {
      PageWellFormed(num, n);
    }
  }

  lemma ContentListWellFormed(texts: seq<seq<string>>)
    ensures ObjectsWellFormed(seq(|texts|, i requires 0 <= i < |texts| => ContentObj(4 + |texts| + i, texts[i])))
  {
  }

  lemma ObjectsWellFormedConcat(a: seq<Obj>, b: seq<Obj>, c: seq<Obj>)
    requires ObjectsWellFormed(a) && ObjectsWellFormed(b) && ObjectsWellFormed(c)
    ensures ObjectsWellFormed(a + b + c)
  {
    forall k | 0 <= k < |a + b + c| ensures PdfReader.WellFormed((a + b + c)[k].elem) {
      PartAt(a, b, c, k);
    }
  }

  lemma PartAt<T>(a: seq<T>, b: seq<T>, c: seq<T>, k: nat)
    requires k < |a| + |b| + |c|
    ensures (a + b + c)[k] == if k < |a| then a[k] else if k < |a| + |b| then b[k - |a|] else c[k - |a| - |b|]
  {}

  /** Letters, digits and `-`: a name or key the reader gets back unchanged. */
  predicate PlainWord(w: string)
  {
    forall i :: 0 <= i < |w| ==> ('a' <= w[i] <= 'z') || ('A' <= w[i] <= 'Z') || ('0' <= w[i] <= '9') || w[i] == '-'
  }

  lemma PlainWordWellFormed(w: string)
    requires PlainWord(w)
    ensures PdfReader.WellFormedName(w) && PdfReader.WellFormedKey(w)
  {
  }

  /** A word the reader gets back both as a name and as a key. */
  predicate Plain(w: string)
  {
    PdfReader.WellFormedName(w) && PdfReader.WellFormedKey(w)
  }

  lemma TypeWords()
    ensures Plain("Type") && Plain("Catalog") && Plain("Pages") && Plain("Page")
  {
    PlainWordWellFormed("Type");
    PlainWordWellFormed("Catalog");
    PlainWordWellFormed("Pages");
    PlainWordWellFormed("Page");
  }

  lemma TreeWords()
    ensures Plain("Kids") && Plain("Count") && Plain("Parent")
  {
    PlainWordWellFormed("Kids");
    PlainWordWellFormed("Count");
    PlainWordWellFormed("Parent");
  }

  lemma PageWords()
    ensures Plain("Resources") && Plain("MediaBox") && Plain("Contents")
  {
    PlainWordWellFormed("Resources");
    PlainWordWellFormed("MediaBox");
    PlainWordWellFormed("Contents");
  }

  lemma FontWords()
    ensures Plain("Font") && Plain("BaseFont") && Plain("Times-Roman")
  {
    PlainWordWellFormed("Font");
    PlainWordWellFormed("BaseFont");
    PlainWordWellFormed("Times-Roman");
  }

  lemma FontKeyWords()
    ensures Plain("Subtype") && Plain("Type1") && Plain("F0")
  {
    PlainWordWellFormed("Subtype");
    PlainWordWellFormed("Type1");
    PlainWordWellFormed("F0");
  }

  lemma CatalogWellFormed()
    ensures PdfReader.WellFormed(CatalogObj().elem)
  {
    TypeWords();
  }

  lemma PagesWellFormed(n: nat)
    ensures PdfReader.WellFormed(PagesObj(n).elem)
  {
    TypeWords();
    TreeWords();
    var kids := seq(n, i => Ref(4 + i));
    assert forall i | 0 <= i < |kids| :: PdfReader.WellFormed(kids[i]);
  }

  lemma FontWellFormed()
    ensures PdfReader.WellFormed(FontObj().elem)
  {
    var f0 := [Entry("Type", Name("Font")), Entry("BaseFont", Name("Times-Roman")), Entry("Subtype", Name("Type1"))];
    TypeWords();
    FontWords();
    FontKeyWords();
    assert PdfReader.WellFormed(Dict(f0));
  }

  lemma PageWellFormed(num: int, n: nat)
    ensures PdfReader.WellFormed(PageObj(num, n).elem)
  {
    TypeWords();
    TreeWords();
    PageWords();
  }

  /**
    * Written out, the layout's cross-reference row k (1 <= k <= 2 + 2n), which a reader
    * takes for object k, holds the offset at which object k + 1 begins.
    */
  lemma LayoutXrefShift(texts: seq<seq<string>>, k: nat)
    requires 1 <= k < |Layout(texts).objects|
    ensures var file := Layout(texts);
      && XrefTable(file)[k].offset == ObjectStart(file, k)
      && file.objects[k].n == k + 1
  {
    XrefTableShape(Layout(texts));
    NumberedInOrder(texts);
  }
}
