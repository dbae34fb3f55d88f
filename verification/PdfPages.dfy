/**
 The page tree of scripts/browser-check-documents.py: a catalog, a page list, a
 font, and for each text a page object followed by its content stream. The reader
 follows the references it finds; nothing tells it how objects were numbered.
 */
module PdfPages {
  import opened Prelude
  import opened PdfSyntax
  import opened PdfText
  import PdfFile

  function CatalogOpen(): Bytes { Ascii("<< /Type /Catalog /Pages ") }
  function Font(): Bytes { Ascii("<< /Type /Font /Subtype /Type1 ") + Ascii("/BaseFont /Helvetica >>") }
  function KidsOpen(): Bytes { Ascii("<< /Type /Pages /Kids [") }
  function KidsClose(): Bytes { Ascii("] /Count ") }
  function DictClose(): Bytes { Ascii(" >>") }
  function Ref(): Bytes { Ascii(" 0 R") }
  function Space(): Bytes { Ascii(" ") }
  function ParentOpen(): Bytes { Ascii("<< /Type /Page /Parent ") }
  function FontOpen(): Bytes { Ascii(" 0 R /Resources << /Font << /F1 ") }
  function ContentsOpen(): Bytes { Ascii(" 0 R >> >> ") + Ascii("/MediaBox [0 0 612 792] /Contents ") }
  function PageClose(): Bytes { Ascii(" 0 R >>") }
  function LengthOpen(): Bytes { Ascii("<< /Length ") }
  function StreamOpen(): Bytes { Ascii(" >>\nstream\n") }
  function StreamClose(): Bytes { Ascii("\nendstream") }
  function TextOpen(): Bytes { Ascii("BT /F1 11 Tf 72 720 Td (") }
  function TextClose(): Bytes { Ascii(" Tj ET") }

  // ----- what is written ------------------------------------------------------------

  function PageId(index: nat): nat {
    4 + index * 2
  }

  /** `' '.join(f'{i} 0 R' ...)` over the ids of the first n pages. */
  function Kids(n: nat): Bytes {
    if n == 0 then []
    else if n == 1 then Dec(PageId(0)) + Ref()
    else Kids(n - 1) + (Space() + (Dec(PageId(n - 1)) + Ref()))
  }

  function PageList(n: nat): Bytes {
    KidsOpen() + Kids(n) + KidsClose() + Dec(n) + DictClose()
  }

  /** The page list is the second object. */
  function Catalog(): Bytes {
    CatalogOpen() + (Dec(2) + PageClose())
  }

  /** Its parent is the page list, its font is the third object and its contents the next. */
  function PageObject(index: nat): Bytes {
    ParentOpen() + (Dec(2) + FromFont(index))
  }

  function FromFont(index: nat): Bytes {
    FontOpen() + (Dec(3) + FromContents(index))
  }

  function FromContents(index: nat): Bytes {
    ContentsOpen() + (Dec(PageId(index) + 1) + PageClose())
  }

  function Content(text: string): Bytes {
    TextOpen() + Encode(Escaped(text)) + ([CLOSE] + TextClose())
  }

  function StreamObject(content: Bytes): Bytes {
    LengthOpen() + Dec(|content|) + StreamOpen() + content + StreamClose()
  }

  /** What the pages of a file hold, one page object and one stream object each. */
  ghost predicate HoldsPages(objects: seq<Bytes>, pages: seq<string>) {
    && |objects| == 3 + 2 * |pages|
    && objects[..3] == [Catalog(), PageList(|pages|), Font()]
    && forall i :: 0 <= i < |pages| ==> IsPage(objects, pages, i)
  }

  ghost predicate IsPage(objects: seq<Bytes>, pages: seq<string>, i: nat)
    requires i < |pages| && |objects| == 3 + 2 * |pages|
  {
    objects[PageId(i) - 1] == PageObject(i) && objects[PageId(i)] == StreamObject(Content(pages[i]))
  }

  function PageObjects(n: nat): seq<Bytes> {
    seq(n, i requires 0 <= i < n => PageObject(i))
  }

  function StreamObjects(pages: seq<string>): seq<Bytes> {
    seq(|pages|, i requires 0 <= i < |pages| => StreamObject(Content(pages[i])))
  }

  method TextPdf(pages: seq<string>) returns (out: Bytes, objects: seq<Bytes>)
    ensures out == PdfFile.PdfBytes(objects)
    ensures HoldsPages(objects, pages)
  {
    var head := [Catalog(), PageList(|pages|), Font()];
    objects := AddPages(head, pages);
    PairedHoldsPages(head, pages, PageObjects(|pages|), StreamObjects(pages));
    out := PdfFile.Pdf(objects);
  }

  method AddPages(head: seq<Bytes>, pages: seq<string>) returns (objects: seq<Bytes>)
    ensures objects == Paired(head, PageObjects(|pages|), StreamObjects(pages), |pages|)
  {
    ghost var first, second := PageObjects(|pages|), StreamObjects(pages);
    objects := head;
    for index := 0 to |pages|
      invariant objects == Paired(head, first, second, index)
    {
      assert PageObject(index) == first[index] && StreamObject(Content(pages[index])) == second[index];
      objects := objects + [PageObject(index)];
      objects := objects + [StreamObject(Content(pages[index]))];
    }
  }

  lemma PairedIsPage(head: seq<Bytes>, pages: seq<string>, first: seq<Bytes>, second: seq<Bytes>, i: nat)
    requires |head| == 3 && i < |pages| == |first| == |second|
    requires first[i] == PageObject(i) && second[i] == StreamObject(Content(pages[i]))
    ensures |Paired(head, first, second, |first|)| == 3 + 2 * |pages|
    ensures IsPage(Paired(head, first, second, |first|), pages, i)
  {
    PairedAtOne(head, first, second, i);
  }

  lemma PairedHoldsPages(head: seq<Bytes>, pages: seq<string>, first: seq<Bytes>, second: seq<Bytes>)
    requires head == [Catalog(), PageList(|pages|), Font()]
    requires first == PageObjects(|pages|) && second == StreamObjects(pages)
    ensures HoldsPages(Paired(head, first, second, |pages|), pages)
  {
    PairedAt(head, first, second, |pages|);
    forall i | 0 <= i < |pages|
      ensures IsPage(Paired(head, first, second, |pages|), pages, i)
    {
      PairedIsPage(head, pages, first, second, i);
    }
  }

  // ----- reading it back --------------------------------------------------------------

  /** References `n 0 R` up to the closing bracket. */
  function ReadKids(b: Bytes): Option<(seq<nat>, Bytes)>
    decreases |b|
  {
    var (id, after) :- ReadNumber(b);
    var more :- Expect(after, Ref());
    if |more| >= |b| then None
    else if Expect(more, Space()).Some? then
      var (ids, rest) :- ReadKids(more[1..]);
      Some(([id] + ids, rest))
    else Some(([id], more))
  }

  function ReadPageList(b: Bytes): Option<seq<nat>> {
    var kids :- Expect(b, KidsOpen());
    var (ids, after) :- if Expect(kids, KidsClose()).Some? then Some(([], kids)) else ReadKids(kids);
    var counted :- Expect(after, KidsClose());
    var (count, close) :- ReadNumber(counted);
    if count == |ids| && close == DictClose() then Some(ids) else None
  }

  /** The number behind a token, and what follows it. */
  function ReadBehind(b: Bytes, token: Bytes): Option<(nat, Bytes)> {
    var numbered :- Expect(b, token);
    ReadNumber(numbered)
  }

  function ReadCatalog(b: Bytes): Option<nat> {
    var (id, close) :- ReadBehind(b, CatalogOpen());
    if close == PageClose() then Some(id) else None
  }

  /** The three objects a page refers to. */
  datatype Page = Page(parent: nat, font: nat, contents: nat)

  function ReadPage(b: Bytes): Option<Page> {
    var (parent, dressed) :- ReadBehind(b, ParentOpen());
    var (font, filled) :- ReadBehind(dressed, FontOpen());
    var (contents, close) :- ReadBehind(filled, ContentsOpen());
    if close == PageClose() then Some(Page(parent, font, contents)) else None
  }

  /** The stream is as long as its dictionary says, and not a byte more. */
  function ReadStream(b: Bytes): Option<Bytes> {
    var sized :- Expect(b, LengthOpen());
    var (length, after) :- ReadNumber(sized);
    var body :- Expect(after, StreamOpen());
    if length <= |body| && body[length..] == StreamClose() then Some(body[..length]) else None
  }

  function ReadContent(b: Bytes): Option<Bytes> {
    var literal :- Expect(b, TextOpen());
    var (text, rest) :- ReadLiteral(literal, 0);
    if rest == TextClose() then Some(text) else None
  }

  /** The object a reference names. */
  function Fetch(objects: seq<Bytes>, id: nat): Option<Bytes> {
    if 1 <= id <= |objects| then Some(objects[id - 1]) else None
  }

  /** The text of a page of the list numbered `list`, set in that font. */
  function FollowPage(objects: seq<Bytes>, list: nat, face: Bytes, page: Page): Option<Bytes> {
    var held :- Fetch(objects, page.contents);
    if page.parent == list && Fetch(objects, page.font) == Some(face) then ReadStreamText(held) else None
  }

  function ReadPageText(objects: seq<Bytes>, list: nat, face: Bytes, id: nat): Option<Bytes> {
    var found :- Fetch(objects, id);
    var page :- ReadPage(found);
    FollowPage(objects, list, face, page)
  }

  function ReadStreamText(b: Bytes): Option<Bytes> {
    var stream :- ReadStream(b);
    ReadContent(stream)
  }

  function ReadEach(read: nat -> Option<Bytes>, ids: seq<nat>): Option<seq<Bytes>> {
    if ids == [] then Some([])
    else
      var text :- read(ids[0]);
      var rest :- ReadEach(read, ids[1..]);
      Some([text] + rest)
  }

  function ReadPages(objects: seq<Bytes>, list: nat, face: Bytes, ids: seq<nat>): Option<seq<Bytes>> {
    ReadEach((id: nat) => ReadPageText(objects, list, face, id), ids)
  }

  /** From a file to the text of each page, in the order of the page list. */
  function ReadText(b: Bytes): Option<seq<Bytes>> {
    var (root, objects) :- PdfFile.ReadPdf(b);
    var catalog :- Fetch(objects, root);
    var list :- ReadCatalog(catalog);
    var pages :- Fetch(objects, list);
    var ids :- ReadPageList(pages);
    ReadPages(objects, list, Font(), ids)
  }

  // ----- the round trip -----------------------------------------------------------------

  /** The references of pages k, k + 1, ..., n - 1, with nothing before the first. */
  function KidsFrom(k: nat, n: nat): Bytes
    requires k < n
    decreases n - k
  {
    if k + 1 == n then Dec(PageId(k)) + Ref() else Dec(PageId(k)) + (Ref() + (Space() + KidsFrom(k + 1, n)))
  }

  lemma {:induction false} KidsFromSnoc(k: nat, n: nat)
    requires k < n
    ensures KidsFrom(k, n + 1) == KidsFrom(k, n) + (Space() + (Dec(PageId(n)) + Ref()))
    decreases n - k
  {
    var last := Space() + (Dec(PageId(n)) + Ref());
    if k + 1 == n {
      Assoc(Dec(PageId(k)), Ref(), last);
    } else {
      KidsFromSnoc(k + 1, n);
      var inner := KidsFrom(k + 1, n);
      Assoc(Space(), inner, last);
      Assoc(Ref(), Space() + inner, last);
      Assoc(Dec(PageId(k)), Ref() + (Space() + inner), last);
    }
  }

  lemma {:induction false} KidsAreKidsFrom(n: nat)
    requires n > 0
    ensures Kids(n) == KidsFrom(0, n)
  {
    if n > 1 {
      KidsAreKidsFrom(n - 1);
      KidsFromSnoc(0, n - 1);
    }
  }

  function Ids(k: nat, n: nat): (ids: seq<nat>)
    requires k <= n
    ensures |ids| == n - k && forall i :: 0 <= i < n - k ==> ids[i] == PageId(k + i)
    decreases n - k
  {
    if k == n then [] else [PageId(k)] + Ids(k + 1, n)
  }

  lemma {:induction false} OneKidRead(id: nat, more: Bytes)
    ensures ReadKids(Dec(id) + (Ref() + more)) ==
      if Expect(more, Space()).None? then Some(([id], more))
      else if ReadKids(more[1..]).None? then None
      else Some(([id] + ReadKids(more[1..]).value.0, ReadKids(more[1..]).value.1))
  {
    NumberRead(id, Ref() + more);
    Expected(Ref(), more);
  }

  lemma SpaceThen(b: Bytes)
    ensures Expect(Space() + b, Space()).Some? && (Space() + b)[1..] == b
  {
    Expected(Space(), b);
  }

  lemma {:induction false} KidsRead(k: nat, n: nat, rest: Bytes)
    requires k < n && Expect(rest, Space()).None?
    ensures ReadKids(KidsFrom(k, n) + rest) == Some((Ids(k, n), rest))
    decreases n - k
  {
    if k + 1 == n {
      OneKidRead(PageId(k), rest);
      Assoc(Dec(PageId(k)), Ref(), rest);
      assert Ids(k, n) == [PageId(k)];
      assert KidsFrom(k, n) == Dec(PageId(k)) + Ref();
    } else {
      var inner := KidsFrom(k + 1, n);
      KidsRead(k + 1, n, rest);
      SpaceThen(inner + rest);
      OneKidRead(PageId(k), Space() + (inner + rest));
      Assoc(Space(), inner, rest);
      Assoc(Ref(), Space() + inner, rest);
      Assoc(Dec(PageId(k)), Ref() + (Space() + inner), rest);
    }
  }

  lemma ListEnd(n: nat)
    ensures ReadNumber(Dec(n) + DictClose()) == Some((n, DictClose()))
    ensures var after := KidsClose() + (Dec(n) + DictClose());
      Expect(after, KidsClose()) == Some(Dec(n) + DictClose()) && Expect(after, Space()).None?
  {
    NumberRead(n, DictClose());
    Expected(KidsClose(), Dec(n) + DictClose());
    assert (KidsClose() + (Dec(n) + DictClose()))[0] == 93;
  }

  lemma PageListRead(n: nat)
    ensures ReadPageList(PageList(n)) == Some(Ids(0, n))
  {
    var after := KidsClose() + (Dec(n) + DictClose());
    ListEnd(n);
    Expected(KidsOpen(), Kids(n) + after);
    Regroup(KidsOpen(), Kids(n), KidsClose(), Dec(n), DictClose());
    if n == 0 {
      assert Kids(n) + after == after;
    } else {
      KidsAreKidsFrom(n);
      KidsRead(0, n, after);
      FirstKid(n, after);
    }
  }

  /** A page list with a page in it does not begin with its closing bracket. */
  lemma FirstKid(n: nat, after: Bytes)
    requires n > 0
    ensures Expect(KidsFrom(0, n) + after, KidsClose()).None?
  {
    assert IsDigit((KidsFrom(0, n) + after)[0]) by {
      assert KidsFrom(0, n)[0] == Dec(PageId(0))[0];
    }
    assert KidsClose()[0] == 93;
  }

  lemma BehindRead(token: Bytes, n: nat, rest: Bytes)
    requires rest == [] || !IsDigit(rest[0])
    ensures ReadBehind(token + (Dec(n) + rest), token) == Some((n, rest))
  {
    Expected(token, Dec(n) + rest);
    NumberRead(n, rest);
  }

  lemma CatalogRead()
    ensures ReadCatalog(Catalog()) == Some(2)
  {
    BehindRead(CatalogOpen(), 2, PageClose());
  }

  lemma ContentsRead(index: nat)
    ensures ReadBehind(FromContents(index), ContentsOpen()) == Some((PageId(index) + 1, PageClose()))
    ensures FromContents(index) != [] && !IsDigit(FromContents(index)[0])
  {
    assert ContentsOpen()[0] == 32 && PageClose()[0] == 32;
    BehindRead(ContentsOpen(), PageId(index) + 1, PageClose());
  }

  lemma FontRead(index: nat)
    ensures ReadBehind(FromFont(index), FontOpen()) == Some((3, FromContents(index)))
    ensures FromFont(index) != [] && !IsDigit(FromFont(index)[0])
  {
    ContentsRead(index);
    assert FontOpen()[0] == 32;
    BehindRead(FontOpen(), 3, FromContents(index));
  }

  lemma ParentRead(index: nat)
    ensures ReadBehind(PageObject(index), ParentOpen()) == Some((2, FromFont(index)))
  {
    FontRead(index);
    BehindRead(ParentOpen(), 2, FromFont(index));
  }

  lemma ThreeRead(b: Bytes, dressed: Bytes, filled: Bytes, contents: nat)
    requires ReadBehind(b, ParentOpen()) == Some((2, dressed))
    requires ReadBehind(dressed, FontOpen()) == Some((3, filled))
    requires ReadBehind(filled, ContentsOpen()) == Some((contents, PageClose()))
    ensures ReadPage(b) == Some(Page(2, 3, contents))
  {
  }

  lemma AllThreeRead(index: nat) returns (dressed: Bytes, filled: Bytes)
    ensures ReadBehind(PageObject(index), ParentOpen()) == Some((2, dressed))
    ensures ReadBehind(dressed, FontOpen()) == Some((3, filled))
    ensures ReadBehind(filled, ContentsOpen()) == Some((PageId(index) + 1, PageClose()))
  {
    ParentRead(index);
    FontRead(index);
    ContentsRead(index);
    dressed, filled := FromFont(index), FromContents(index);
  }

  lemma PageRead(index: nat)
    ensures ReadPage(PageObject(index)) == Some(Page(2, 3, PageId(index) + 1))
  {
    var dressed, filled := AllThreeRead(index);
    ThreeRead(PageObject(index), dressed, filled, PageId(index) + 1);
  }

  lemma StreamRead(content: Bytes)
    ensures ReadStream(StreamObject(content)) == Some(content)
  {
    var body := content + StreamClose();
    var after := StreamOpen() + body;
    Regroup(LengthOpen(), Dec(|content|), StreamOpen(), content, StreamClose());
    NumberRead(|content|, after);
    Expected(StreamOpen(), body);
    Expected(LengthOpen(), Dec(|content|) + after);
    Halves(content, StreamClose());
  }

  lemma {:induction false} ContentRead(text: string)
    ensures ReadContent(Content(text)) == Some(OneEol(Encode(text)))
  {
    PassesEscapeEach(text);
    LiteralRead(text, TextClose());
    Expected(TextOpen(), Ending(text, TextClose()));
    Assoc(TextOpen(), Encode(Escaped(text)), [CLOSE] + TextClose());
  }

  lemma StreamTextRead(text: string)
    ensures ReadStreamText(StreamObject(Content(text))) == Some(OneEol(Encode(text)))
  {
    StreamRead(Content(text));
    ContentRead(text);
  }

  /** From a page to its stream, the object after it. */
  lemma Followed(objects: seq<Bytes>, face: Bytes, id: nat, held: Bytes, text: Bytes)
    requires 3 <= id < |objects| && objects[2] == face && objects[id] == held
    requires ReadStreamText(held) == Some(text)
    ensures FollowPage(objects, 2, face, Page(2, 3, id + 1)) == Some(text)
  {
  }

  lemma PageTextRead(objects: seq<Bytes>, face: Bytes, id: nat, page: Bytes, text: Bytes)
    requires 3 <= id < |objects| && objects[id - 1] == page
    requires FollowPage(objects, 2, face, Page(2, 3, id + 1)) == Some(text)
    requires ReadPage(page) == Some(Page(2, 3, id + 1))
    ensures ReadPageText(objects, 2, face, id) == Some(text)
  {
  }

  function Texts(pages: seq<string>): seq<Bytes> {
    seq(|pages|, i requires 0 <= i < |pages| => OneEol(Encode(pages[i])))
  }

  lemma {:induction false} EachRead(read: nat -> Option<Bytes>, ids: seq<nat>, texts: seq<Bytes>)
    requires |ids| == |texts|
    requires forall i :: 0 <= i < |ids| ==> read(ids[i]) == Some(texts[i])
    ensures ReadEach(read, ids) == Some(texts)
    decreases |ids|
  {
    if ids != [] {
      EachRead(read, ids[1..], texts[1..]);
      assert texts == [texts[0]] + texts[1..];
    }
  }

  lemma PageIsFound(objects: seq<Bytes>, pages: seq<string>, i: nat)
    requires i < |pages| && |objects| == 3 + 2 * |pages| && IsPage(objects, pages, i)
    ensures ReadPage(objects[PageId(i) - 1]) == Some(Page(2, 3, PageId(i) + 1))
  {
    PageRead(i);
  }

  lemma StreamIsFound(objects: seq<Bytes>, pages: seq<string>, i: nat)
    requires i < |pages| && |objects| == 3 + 2 * |pages| && IsPage(objects, pages, i)
    ensures ReadStreamText(objects[PageId(i)]) == Some(OneEol(Encode(pages[i])))
  {
    StreamTextRead(pages[i]);
  }

  /** The object numbered `id` is a page whose stream follows it and holds that text. */
  ghost predicate PageAt(objects: seq<Bytes>, id: nat, text: Bytes) {
    && 3 <= id < |objects|
    && ReadPage(objects[id - 1]) == Some(Page(2, 3, id + 1))
    && ReadStreamText(objects[id]) == Some(text)
  }

  lemma IsPageRead(objects: seq<Bytes>, face: Bytes, id: nat, text: Bytes)
    requires |objects| >= 3 && objects[2] == face && PageAt(objects, id, text)
    ensures ReadPageText(objects, 2, face, id) == Some(text)
  {
    Followed(objects, face, id, objects[id], text);
    PageTextRead(objects, face, id, objects[id - 1], text);
  }

  lemma PageTextsRead(objects: seq<Bytes>, face: Bytes, texts: seq<Bytes>)
    requires |objects| >= 3 && objects[2] == face
    requires forall i :: 0 <= i < |texts| ==> PageAt(objects, PageId(i), texts[i])
    ensures forall i :: 0 <= i < |texts| ==> ReadPageText(objects, 2, face, PageId(i)) == Some(texts[i])
  {
    forall i | 0 <= i < |texts|
      ensures ReadPageText(objects, 2, face, PageId(i)) == Some(texts[i])
    {
      IsPageRead(objects, face, PageId(i), texts[i]);
    }
  }

  lemma PagesRead(objects: seq<Bytes>, face: Bytes, texts: seq<Bytes>)
    requires forall i :: 0 <= i < |texts| ==> ReadPageText(objects, 2, face, PageId(i)) == Some(texts[i])
    ensures ReadPages(objects, 2, face, Ids(0, |texts|)) == Some(texts)
  {
    EachRead((id: nat) => ReadPageText(objects, 2, face, id), Ids(0, |texts|), texts);
  }

  lemma PageIsAt(objects: seq<Bytes>, pages: seq<string>, i: nat, text: Bytes)
    requires i < |pages| && |objects| == 3 + 2 * |pages|
    requires ReadPage(objects[PageId(i) - 1]) == Some(Page(2, 3, PageId(i) + 1))
    requires ReadStreamText(objects[PageId(i)]) == Some(text)
    ensures PageAt(objects, PageId(i), text)
  {
  }

  lemma PagesAreFound(objects: seq<Bytes>, pages: seq<string>)
    requires HoldsPages(objects, pages)
    ensures forall i :: 0 <= i < |pages| ==> PageAt(objects, PageId(i), Texts(pages)[i])
  {
    forall i | 0 <= i < |pages|
      ensures PageAt(objects, PageId(i), Texts(pages)[i])
    {
      PageIsFound(objects, pages, i);
      StreamIsFound(objects, pages, i);
      PageIsAt(objects, pages, i, OneEol(Encode(pages[i])));
    }
  }

  lemma HeldPagesRead(objects: seq<Bytes>, pages: seq<string>)
    requires HoldsPages(objects, pages)
    ensures ReadPages(objects, 2, Font(), Ids(0, |pages|)) == Some(Texts(pages))
  {
    PagesAreFound(objects, pages);
    assert objects[2] == objects[..3][2];
    PageTextsRead(objects, Font(), Texts(pages));
    PagesRead(objects, Font(), Texts(pages));
  }

  /** The three objects in front. */
  lemma FrontRead(objects: seq<Bytes>, pages: seq<string>)
    requires HoldsPages(objects, pages)
    ensures ReadCatalog(objects[0]) == Some(2) && ReadPageList(objects[1]) == Some(Ids(0, |pages|))
  {
    CatalogRead();
    PageListRead(|pages|);
    assert objects[0] == objects[..3][0] && objects[1] == objects[..3][1];
  }

  lemma TextFollows(b: Bytes, objects: seq<Bytes>, ids: seq<nat>, texts: seq<Bytes>)
    requires PdfFile.ReadPdf(b) == Some((1, objects)) && |objects| >= 2
    requires ReadCatalog(objects[0]) == Some(2) && ReadPageList(objects[1]) == Some(ids)
    requires ReadPages(objects, 2, Font(), ids) == Some(texts)
    ensures ReadText(b) == Some(texts)
  {
  }

  /** Every page reference leads to the page meant for it, every contents reference
      to that page's stream, every length is the stream's, and the text that comes out
      is the text that went in, its line ends made one: from the file's last line
      back to each page. */
  lemma TextRoundTrip(objects: seq<Bytes>, pages: seq<string>)
    requires HoldsPages(objects, pages) && PdfFile.AllFit(objects)
    ensures ReadText(PdfFile.PdfBytes(objects)) == Some(Texts(pages))
  {
    PdfFile.PdfRoundTrip(objects);
    FrontRead(objects, pages);
    HeldPagesRead(objects, pages);
    TextFollows(PdfFile.PdfBytes(objects), objects, Ids(0, |pages|), Texts(pages));
  }

  /** A page's text is read back byte for byte exactly when it has no carriage return. */
  lemma TextExact(objects: seq<Bytes>, pages: seq<string>)
    requires HoldsPages(objects, pages) && PdfFile.AllFit(objects)
    ensures ReadText(PdfFile.PdfBytes(objects)).Some?
    ensures var read := ReadText(PdfFile.PdfBytes(objects)).value;
      |read| == |pages| && forall i :: 0 <= i < |pages| ==> (read[i] == Encode(pages[i]) <==> '\r' !in pages[i])
  {
    TextRoundTrip(objects, pages);
    forall i | 0 <= i < |pages|
      ensures Texts(pages)[i] == Encode(pages[i]) <==> '\r' !in pages[i]
    {
      EolUnchanged(Encode(pages[i]));
      CrEncoded(pages[i]);
    }
  }
}
