/**
 The PDF writer of scripts/browser-check-documents.py and a reader for it.

 The writer appends numbered objects, remembers where each one began, and ends
 with a cross-reference table of 20-byte entries (section 7.5.4 of ISO 32000-1)
 and the table's own offset (section 7.5.5). The reader starts from that offset at
 the end of the file and knows nothing of how the file was built.
 */
module PdfFile {
  import opened Prelude
  import opened PdfSyntax

  function Header(): Bytes { Ascii("%PDF-1.4\n") }
  function ObjOpen(): Bytes { Ascii(" 0 obj\n") }
  function ObjClose(): Bytes { Ascii("\nendobj\n") }
  function XrefOpen(): Bytes { Ascii("xref\n0 ") }
  function NewLine(): Bytes { Ascii("\n") }
  function FreeEntry(): Bytes { Ascii("0000000000 65535 f \n") }
  function EntryTail(): Bytes { Ascii(" 00000 n \n") }
  function TrailerOpen(): Bytes { Ascii("trailer\n<< /Size ") }
  function RootOpen(): Bytes { Ascii(" /Root ") }
  function RootClose(): Bytes { Ascii(" 0 R >>\n") }
  function StartXref(): Bytes { Ascii("startxref\n") }
  function Eof(): Bytes { Ascii("\n%%EOF\n") }

  // ----- what is written ----------------------------------------------------------

  function Object(number: nat, body: Bytes): Bytes {
    Dec(number) + ObjOpen() + body + ObjClose()
  }

  /** The file up to and including the object numbered k. */
  function UpTo(objects: seq<Bytes>, k: nat): Bytes
    requires k <= |objects|
  {
    Laid(Header(), Parts(objects), k)
  }

  /** Objects are numbered from 1. */
  function Parts(objects: seq<Bytes>): seq<Bytes> {
    seq(|objects|, i requires 0 <= i < |objects| => Object(i + 1, objects[i]))
  }

  /** Where the object numbered k + 1 begins; for k == |objects|, where the table does. */
  function Offset(objects: seq<Bytes>, k: nat): nat
    requires k <= |objects|
  {
    |UpTo(objects, k)|
  }

  function Offsets(objects: seq<Bytes>): seq<nat> {
    seq(|objects|, k requires 0 <= k < |objects| => Offset(objects, k))
  }

  function Entry(offset: nat): Bytes {
    Padded(offset, 10) + EntryTail()
  }

  function Entries(offsets: seq<nat>): seq<Bytes> {
    seq(|offsets|, i requires 0 <= i < |offsets| => Entry(offsets[i]))
  }

  function TableHead(n: nat): Bytes {
    XrefOpen() + (Dec(n + 1) + (NewLine() + FreeEntry()))
  }

  /** The root is the first object. */
  function Trailer(n: nat): Bytes {
    TrailerOpen() + (Dec(n + 1) + (RootOpen() + (Dec(1) + RootClose())))
  }

  function Tail(start: nat): Bytes {
    StartXref() + Dec(start) + Eof()
  }

  function PdfBytes(objects: seq<Bytes>): Bytes {
    UpTo(objects, |objects|) + TableHead(|objects|) + Flat(Entries(Offsets(objects)))
    + Trailer(|objects|) + Tail(Offset(objects, |objects|))
  }

  method WriteObjects(objects: seq<Bytes>) returns (out: Bytes, offsets: seq<nat>)
    ensures out == UpTo(objects, |objects|) && offsets == Offsets(objects)
  {
    out := Header();
    offsets := [];
    for i := 0 to |objects|
      invariant out == UpTo(objects, i)
      invariant |offsets| == i && forall k :: 0 <= k < i ==> offsets[k] == Offset(objects, k)
    {
      offsets := offsets + [|out|];
      out := out + Object(i + 1, objects[i]);
    }
  }

  method WriteEntries(before: Bytes, offsets: seq<nat>) returns (out: Bytes)
    ensures out == before + Flat(Entries(offsets))
  {
    out := before;
    ghost var entries := Entries(offsets);
    for i := 0 to |offsets|
      invariant out == before + Flat(entries[..i])
    {
      FlatSnoc(entries, i);
      Assoc(before, Flat(entries[..i]), Entry(offsets[i]));
      out := out + Entry(offsets[i]);
    }
    assert entries[..|offsets|] == entries;
  }

  method Pdf(objects: seq<Bytes>) returns (out: Bytes)
    ensures out == PdfBytes(objects)
  {
    var offsets;
    out, offsets := WriteObjects(objects);
    var start := |out|;
    out := WriteEntries(out + TableHead(|objects|), offsets);
    out := out + Trailer(|objects|) + Tail(start);
  }

  // ----- reading it back ------------------------------------------------------------

  /** The number between the last `startxref` and the end-of-file marker. */
  function ReadStart(b: Bytes): Option<nat> {
    var numbered :- Strip(b, Eof());
    var (start, named) :- ReadLastNumber(numbered);
    var _ :- Strip(named, StartXref());
    Some(start)
  }

  /** n entries of exactly 20 bytes each, and what follows them. */
  function ReadEntries(b: Bytes, n: nat): Option<(seq<nat>, Bytes)> {
    if n == 0 then Some(([], b))
    else if |b| < 20 || !AllDigits(b[..10]) || b[10..20] != EntryTail() then None
    else
      var (offsets, rest) :- ReadEntries(b[20..], n - 1);
      Some(([Value(b[..10])] + offsets, rest))
  }

  /** The table of a file whose objects are numbered from 0, object 0 being free. */
  function ReadTable(b: Bytes): Option<(seq<nat>, Bytes)> {
    var counted :- Expect(b, XrefOpen());
    var (count, lined) :- ReadNumber(counted);
    var free :- Expect(lined, NewLine());
    var entries :- Expect(free, FreeEntry());
    if count == 0 then None else ReadEntries(entries, count - 1)
  }

  /** The number of the root object, if the trailer counts the objects right. */
  function ReadTrailer(b: Bytes, n: nat): Option<nat> {
    var sized :- Expect(b, TrailerOpen());
    var (size, named) :- ReadNumber(sized);
    var numbered :- Expect(named, RootOpen());
    var (root, close) :- ReadNumber(numbered);
    if size == n + 1 && Expect(close, RootClose()).Some? then Some(root) else None
  }

  /** The body of the object numbered `number`, read off its own bytes. */
  function ReadObject(b: Bytes, number: nat): Option<Bytes> {
    var (found, after) :- ReadNumber(b);
    var body :- Expect(after, ObjOpen());
    if found != number then None else Strip(body, ObjClose())
  }

  /** The k-th object lies between its own offset and the next one. */
  function ReadNth(b: Bytes, bounds: seq<nat>, k: nat): Option<Bytes>
    requires 0 < k < |bounds|
  {
    if bounds[k - 1] <= bounds[k] <= |b| then ReadObject(b[bounds[k - 1]..bounds[k]], k) else None
  }

  function ReadObjects(b: Bytes, bounds: seq<nat>, k: nat): Option<seq<Bytes>>
    requires k < |bounds|
  {
    if k == 0 then Some([])
    else
      var earlier :- ReadObjects(b, bounds, k - 1);
      var body :- ReadNth(b, bounds, k);
      Some(earlier + [body])
  }

  /** The number of the root object, and every object's body. */
  function ReadPdf(b: Bytes): Option<(nat, seq<Bytes>)> {
    var start :- ReadStart(b);
    if start > |b| then None
    else
      var (offsets, trailer) :- ReadTable(b[start..]);
      var root :- ReadTrailer(trailer, |offsets|);
      var objects :- ReadObjects(b, offsets + [start], |offsets|);
      Some((root, objects))
  }

  // ----- the round trip ---------------------------------------------------------------

  lemma StartRead(front: Bytes, start: nat)
    ensures ReadStart(front + Tail(start)) == Some(start)
  {
    var named := front + StartXref();
    var numbered := named + Dec(start);
    assert front + Tail(start) == numbered + Eof();
    Stripped(numbered, Eof());
    LastNumberRead(named, start);
    Stripped(front, StartXref());
  }

  predicate Fits(offset: nat) {
    offset < 10_000_000_000
  }

  lemma EntryWidth(offset: nat)
    ensures |Entry(offset)| == 20 <==> Fits(offset)
    ensures Fits(offset) ==> Entry(offset)[..10] == Padded(offset, 10) && Entry(offset)[10..] == EntryTail()
    ensures !Fits(offset) ==> |Entry(offset)| > 20 && IsDigit(Entry(offset)[10])
  {
    TenDigits();
    PaddedIsNumber(offset, 10);
  }

  lemma TenDigits()
    ensures Pow10(10) == 10_000_000_000
  {
    assert Pow10(5) == 100_000;
  }

  lemma OneEntryRead(offset: nat, after: Bytes, n: nat)
    requires n > 0
    ensures ReadEntries(Entry(offset) + after, n) ==
      if Fits(offset) && ReadEntries(after, n - 1).Some? 
      then Some(([offset] + ReadEntries(after, n - 1).value.0, ReadEntries(after, n - 1).value.1))
      else None
  {
    var b := Entry(offset) + after;
    EntryWidth(offset);
    PaddedIsNumber(offset, 10);
    if Fits(offset) {
      assert b[..10] == Entry(offset)[..10] && b[10..20] == Entry(offset)[10..] && b[20..] == after;
    } else {
      assert b[10] == Entry(offset)[10] && b[10..20][0] == b[10];
    }
  }

  lemma AllFitCons(offset: nat, later: seq<nat>)
    ensures (forall i :: 0 <= i < |[offset] + later| ==> Fits(([offset] + later)[i]))
       <==> Fits(offset) && forall i :: 0 <= i < |later| ==> Fits(later[i])
  {
    var all := [offset] + later;
    assert all[0] == offset;
    forall i | 0 <= i < |later|
      ensures all[i + 1] == later[i]
    {
    }
    assert forall j :: 1 <= j < |all| ==> all[j] == later[j - 1];
  }

  /** The table is read back exactly when every offset fits its ten digits. */
  lemma {:induction false} EntriesRead(offsets: seq<nat>, rest: Bytes)
    ensures ReadEntries(Flat(Entries(offsets)) + rest, |offsets|) ==
      if (forall i :: 0 <= i < |offsets| ==> Fits(offsets[i])) then Some((offsets, rest)) else None
    decreases |offsets|
  {
    if offsets != [] {
      var offset, later := offsets[0], offsets[1..];
      assert offsets == [offset] + later;
      assert Entries(offsets) == [Entry(offset)] + Entries(later);
      FlatCons(Entry(offset), Entries(later));
      Assoc(Entry(offset), Flat(Entries(later)), rest);
      OneEntryRead(offset, Flat(Entries(later)) + rest, |offsets|);
      EntriesRead(later, rest);
      AllFitCons(offset, later);
    } else {
      assert Flat(Entries(offsets)) + rest == rest;
    }
  }

  lemma TableRead(n: nat, entries: Bytes)
    ensures ReadTable(TableHead(n) + entries) == ReadEntries(entries, n)
  {
    var free := FreeEntry() + entries;
    var lined := NewLine() + free;
    var counted := Dec(n + 1) + lined;
    assert TableHead(n) + entries == XrefOpen() + counted;
    Expected(XrefOpen(), counted);
    NumberRead(n + 1, lined);
    Expected(NewLine(), free);
    Expected(FreeEntry(), entries);
  }

  lemma TrailerRead(n: nat, rest: Bytes)
    ensures ReadTrailer(Trailer(n) + rest, n) == Some(1)
  {
    var close := RootClose() + rest;
    var numbered := Dec(1) + close;
    var named := RootOpen() + numbered;
    var sized := Dec(n + 1) + named;
    assert Trailer(n) + rest == TrailerOpen() + sized;
    Expected(TrailerOpen(), sized);
    NumberRead(n + 1, named);
    Expected(RootOpen(), numbered);
    NumberRead(1, close);
    Expected(RootClose(), rest);
  }

  lemma ObjectRead(number: nat, body: Bytes)
    ensures ReadObject(Object(number, body), number) == Some(body)
  {
    var inside := body + ObjClose();
    var after := ObjOpen() + inside;
    assert Object(number, body) == Dec(number) + after;
    NumberRead(number, after);
    Expected(ObjOpen(), inside);
    Stripped(body, ObjClose());
  }

  lemma NthRead(objects: seq<Bytes>, b: Bytes, bounds: seq<nat>, k: nat)
    requires k < |objects| && UpTo(objects, |objects|) <= b
    requires |bounds| == |objects| + 1 && bounds[k] == Offset(objects, k) && bounds[k + 1] == Offset(objects, k + 1)
    ensures ReadNth(b, bounds, k + 1) == Some(objects[k])
  {
    LaidSlice(Header(), Parts(objects), b, k);
    ObjectRead(k + 1, objects[k]);
  }

  lemma {:induction false} ObjectsRead(objects: seq<Bytes>, b: Bytes, bounds: seq<nat>, k: nat)
    requires k <= |objects| && |bounds| == |objects| + 1
    requires forall i :: 0 < i <= |objects| ==> ReadNth(b, bounds, i) == Some(objects[i - 1])
    ensures ReadObjects(b, bounds, k) == Some(objects[..k])
  {
    if k > 0 {
      ObjectsRead(objects, b, bounds, k - 1);
      assert objects[..k] == objects[..k - 1] + [objects[k - 1]];
    }
  }

  predicate AllFit(objects: seq<Bytes>) {
    forall k :: 0 <= k < |objects| ==> Fits(Offset(objects, k))
  }

  /** The file from the table on. */
  function FromTable(objects: seq<Bytes>): Bytes {
    TableHead(|objects|) + (Flat(Entries(Offsets(objects))) + (Trailer(|objects|) + Tail(Offset(objects, |objects|))))
  }

  lemma SliceAfter(front: Bytes, rest: Bytes)
    ensures front <= front + rest && (front + rest)[|front|..] == rest
  {
  }

  lemma PdfShape(objects: seq<Bytes>)
    ensures PdfBytes(objects) == UpTo(objects, |objects|) + FromTable(objects)
    ensures ReadStart(PdfBytes(objects)) == Some(Offset(objects, |objects|))
  {
    var body, n, start := UpTo(objects, |objects|), |objects|, Offset(objects, |objects|);
    var entries := Flat(Entries(Offsets(objects)));
    Regroup(body, TableHead(n), entries, Trailer(n), Tail(start));
    StartRead(body + TableHead(n) + entries + Trailer(n), start);
  }

  /** What follows the table. */
  function FromTrailer(objects: seq<Bytes>): Bytes {
    Trailer(|objects|) + Tail(Offset(objects, |objects|))
  }

  lemma FromTableRead(objects: seq<Bytes>)
    ensures ReadTable(FromTable(objects)) ==
      if AllFit(objects) then Some((Offsets(objects), FromTrailer(objects))) else None
  {
    TableRead(|objects|, Flat(Entries(Offsets(objects))) + FromTrailer(objects));
    EntriesRead(Offsets(objects), FromTrailer(objects));
    assert forall k :: 0 <= k < |objects| ==> Offsets(objects)[k] == Offset(objects, k);
  }

  /** Reading a written file gives back exactly the object bodies, whatever bytes
      they hold, and names the first as the root, if every object begins below 10^10;
      otherwise the table is not a table of 20-byte entries and reading fails. */
  lemma PdfRoundTrip(objects: seq<Bytes>)
    ensures ReadPdf(PdfBytes(objects)) == if AllFit(objects) then Some((1, objects)) else None
  {
    PdfShape(objects);
    FromTableRead(objects);
    SliceAfter(UpTo(objects, |objects|), FromTable(objects));
    if AllFit(objects) {
      TrailerRead(|objects|, Tail(Offset(objects, |objects|)));
      AllObjectsRead(objects, PdfBytes(objects));
    }
  }

  lemma AllObjectsRead(objects: seq<Bytes>, b: Bytes)
    requires UpTo(objects, |objects|) <= b
    ensures ReadObjects(b, Offsets(objects) + [Offset(objects, |objects|)], |objects|) == Some(objects)
  {
    var bounds := Offsets(objects) + [Offset(objects, |objects|)];
    forall i | 0 < i <= |objects|
      ensures ReadNth(b, bounds, i) == Some(objects[i - 1])
    {
      NthRead(objects, b, bounds, i - 1);
    }
    ObjectsRead(objects, b, bounds, |objects|);
    assert objects[..|objects|] == objects;
  }
}
