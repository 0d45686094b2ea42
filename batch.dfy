/**
  The per-file loop of `extract_metadata_and_refs` (app.py lines 20-29 and
  79-87): the directory listing is given as a sequence of names, each paired
  with what parsing that file gives.
 */
module Batch {

  import opened Text
  import opened Tei
  import opened Extract
  import opened Gather

  const TeiSuffix := ".grobid.tei.xml"

  /** What `ET.parse` makes of one file: a document, or an exception. */
  datatype Parse = Parsed(doc: Doc) | ParseError

  /** One name of the directory listing, with the outcome of parsing that file. */
  datatype DirEntry = DirEntry(name: string, parse: Parse)

  /** Only Grobid output is considered. */
  predicate IsTeiFile(name: string) {
    EndsWith(name, TeiSuffix)
  }

  /** What one entry adds to `data`: its record if it is a TEI file that parses, else nothing. */
  function EntryRecords(e: DirEntry): seq<Record> {
    if IsTeiFile(e.name) && e.parse.Parsed? then [RecordOf(e.parse.doc, e.name)] else []
  }

  /** `data` after the loop over the listing: each entry's record, if any, in listing order. */
  function Records(listing: seq<DirEntry>): seq<Record> {
    GatherAll(EntryRecords, listing)
  }

  /** Visiting entry i leaves `data` alone or appends that entry's record. */
  lemma ExtractStep(listing: seq<DirEntry>, i: nat)
    requires i < |listing|
    ensures var e := listing[i];
      GatherUpTo(EntryRecords, listing, i + 1) ==
        GatherUpTo(EntryRecords, listing, i) +
        (if IsTeiFile(e.name) && e.parse.Parsed? then [RecordOf(e.parse.doc, e.name)] else [])
  {
    GatherStep(EntryRecords, listing, i);
  }

  /** The loop over `os.listdir` with its catch-and-skip of a failing file. */
  method ExtractAll(listing: seq<DirEntry>) returns (data: seq<Record>)
    ensures data == Records(listing)
  {
    data := [];
    var i := 0;
    while i < |listing|
      invariant 0 <= i <= |listing|
      invariant data == GatherUpTo(EntryRecords, listing, i)
    {
      var entry := listing[i];
      ExtractStep(listing, i);
      i := i + 1;
      if !IsTeiFile(entry.name) {
        continue;
      }
      match entry.parse
      case ParseError =>
      case Parsed(doc) =>
        var r := DeriveRecord(doc, entry.name);
        data := data + [r];
    }
  }

  /** The records of a concatenated listing are the records of its parts, in the same order. */
  lemma RecordsAppend(a: seq<DirEntry>, b: seq<DirEntry>)
    ensures Records(a + b) == Records(a) + Records(b)
  {
    GatherAppend(EntryRecords, a, b);
  }

  /** A file that is not Grobid output, or does not parse, is left out and nothing else changes. */
  lemma SkippedEntry(before: seq<DirEntry>, e: DirEntry, after: seq<DirEntry>)
    requires !IsTeiFile(e.name) || e.parse.ParseError?
    ensures Records(before + [e] + after) == Records(before) + Records(after)
  {
    RecordsAppend(before + [e], after);
    RecordsAppend(before, [e]);
    GatherSingle(EntryRecords, e);
    assert EntryRecords(e) == [];
    assert Records(before) + [] == Records(before);
  }

  /** A TEI file that parses contributes its own record, at its place in the listing. */
  lemma KeptEntry(before: seq<DirEntry>, e: DirEntry, after: seq<DirEntry>)
    requires IsTeiFile(e.name) && e.parse.Parsed?
    ensures Records(before + [e] + after) ==
      Records(before) + [RecordOf(e.parse.doc, e.name)] + Records(after)
  {
    RecordsAppend(before + [e], after);
    RecordsAppend(before, [e]);
    GatherSingle(EntryRecords, e);
    assert EntryRecords(e) == [RecordOf(e.parse.doc, e.name)];
  }

  /** Entry `e` makes record `r`: a TEI file that parses into it. */
  ghost predicate Makes(e: DirEntry, r: Record) {
    IsTeiFile(e.name) && e.parse.Parsed? && r == RecordOf(e.parse.doc, e.name)
  }

  /** A record is produced exactly for each TEI file of the listing that parses, and names that file. */
  lemma RecordsMembers(listing: seq<DirEntry>, r: Record)
    ensures r in Records(listing) <==> exists i :: 0 <= i < |listing| && Makes(listing[i], r)
  {
    GatherMembers(EntryRecords, listing, |listing|, r);
    forall i | 0 <= i < |listing|
      ensures r in EntryRecords(listing[i]) <==> Makes(listing[i], r)
    {
    }
  }

  /** Every record comes from a TEI file and carries that file's name. */
  lemma RecordsFromTeiFiles(listing: seq<DirEntry>)
    ensures forall r :: r in Records(listing) ==>
      exists i :: 0 <= i < |listing| && IsTeiFile(listing[i].name) && r.filename == listing[i].name
  {
    forall r | r in Records(listing)
      ensures exists i :: 0 <= i < |listing| && IsTeiFile(listing[i].name) && r.filename == listing[i].name
    {
      RecordsMembers(listing, r);
      var i :| 0 <= i < |listing| && Makes(listing[i], r);
    }
  }
}
