/**
  Derivation of one paper record from one parsed TEI document: the body of the
  `try` block of `extract_metadata_and_refs` (app.py lines 30-83).
 */
module Extract {

  import opened Wrappers
  import opened Text
  import opened Tei
  import opened Gather

  /** One row of the DataFrame the extractor returns. */
  datatype Record = Record(
    title: Option<string>,
    year: string,
    primaryAuthor: string,
    fullAuthors: string,
    abstractText: string,
    refs: set<string>,
    filename: string
  )

  const Unknown := "Unknown"
  const NoYear := "N/A"
  const NoAbstract := "No abstract available."

  // ---------------------------------------------------------------------------
  // Title and year
  // ---------------------------------------------------------------------------

  /**
    The title falls back to the file name only when there is no title element;
    an element without text gives no title at all.
   */
  function Title(title: Node, filename: string): (r: Option<string>)
    ensures title.None? ==> r == Some(filename)
    ensures title == Some(None) ==> r.None?
    ensures title.Some? && title.value.Some? ==> r == title.value
  {
    match title
    case None => Some(filename)
    case Some(text) => text
  }

  predicate HasWhen(date: Node) {
    date.Some? && date.value.Some? && date.value.value != ""
  }

  /** The first (at most) four characters of a non-empty `when`, otherwise "N/A". */
  function Year(date: Node): (r: string)
    ensures HasWhen(date) ==> StartsWith(date.value.value, r) && |r| == Min(4, |date.value.value|)
    ensures !HasWhen(date) ==> r == NoYear
  {
    if HasWhen(date) then Take(date.value.value, 4) else NoYear
  }

  // ---------------------------------------------------------------------------
  // Authors
  // ---------------------------------------------------------------------------

  /** What the f-string makes of a name part: "" without an element, "None" without text. */
  function PartText(part: Node): string {
    match part
    case None => ""
    case Some(None) => "None"
    case Some(Some(t)) => t
  }

  function FullName(p: PersName): string {
    Strip(PartText(p.forename) + " " + PartText(p.surname))
  }

  /** A name the author loop keeps: non-empty and trimmed. */
  ghost predicate IsRetained(name: string) {
    |name| > 0 && IsStripped(name)
  }

  /** The names one author entry contributes to `author_list`: none or one. */
  function NameOf(a: Author): seq<string> {
    if a.persName.Some? && |FullName(a.persName.value)| > 0 then [FullName(a.persName.value)] else []
  }

  /** `author_list` after the loop over `authors`: each entry's name, if any, in order. */
  function RetainedNames(authors: seq<Author>): seq<string> {
    GatherAll(NameOf, authors)
  }

  /** Author entry `a` gives the non-empty name `name`. */
  ghost predicate Yields(a: Author, name: string) {
    a.persName.Some? && FullName(a.persName.value) == name && |name| > 0
  }

  lemma NameOfYields(a: Author, name: string)
    ensures name in NameOf(a) <==> Yields(a, name)
  {
  }

  /** A name is retained exactly when some author entry with a persName yields it non-empty. */
  lemma RetainedNamesMembers(authors: seq<Author>, name: string)
    ensures name in RetainedNames(authors) <==> exists i :: 0 <= i < |authors| && Yields(authors[i], name)
  {
    GatherMembers(NameOf, authors, |authors|, name);
    forall i | 0 <= i < |authors|
      ensures name in NameOf(authors[i]) <==> Yields(authors[i], name)
    {
      NameOfYields(authors[i], name);
    }
  }

  /** Every kept name is non-empty and trimmed. */
  lemma RetainedNamesRetained(authors: seq<Author>)
    ensures forall i :: 0 <= i < |RetainedNames(authors)| ==> IsRetained(RetainedNames(authors)[i])
  {
    var names := RetainedNames(authors);
    forall i | 0 <= i < |names|
      ensures IsRetained(names[i])
    {
      RetainedNamesMembers(authors, names[i]);
    }
  }

  /** Keeping names preserves document order: the list of a concatenation is the concatenation of the lists. */
  lemma RetainedNamesAppend(a: seq<Author>, b: seq<Author>)
    ensures RetainedNames(a + b) == RetainedNames(a) + RetainedNames(b)
  {
    GatherAppend(NameOf, a, b);
  }

  /** Visiting author entry i appends its name when it has a persName whose name is not empty. */
  lemma CollectStep(authors: seq<Author>, i: nat)
    requires i < |authors|
    ensures var a := authors[i];
      GatherUpTo(NameOf, authors, i + 1) ==
        GatherUpTo(NameOf, authors, i) +
        (if a.persName.Some? && |FullName(a.persName.value)| > 0 then [FullName(a.persName.value)] else [])
  {
    GatherStep(NameOf, authors, i);
  }

  /** The author loop (app.py lines 39-49). */
  method CollectAuthors(authors: seq<Author>) returns (names: seq<string>)
    ensures names == RetainedNames(authors)
  {
    names := [];
    var i := 0;
    while i < |authors|
      invariant 0 <= i <= |authors|
      invariant names == GatherUpTo(NameOf, authors, i)
    {
      var author := authors[i];
      CollectStep(authors, i);
      if author.persName.Some? {
        var p := author.persName.value;
        var fullName := Strip(PartText(p.forename) + " " + PartText(p.surname));
        if |fullName| > 0 {
          names := names + [fullName];
        }
      }
      i := i + 1;
    }
  }

  /**
    The last whitespace token of the first retained name, or "Unknown": a
    token that ends the name and is either the whole name or preceded by
    whitespace.
   */
  function PrimaryAuthor(names: seq<string>): (r: string)
    requires names == [] || IsRetained(names[0])
    ensures names == [] ==> r == Unknown
    ensures names != [] ==> IsWord(r) && EndsWith(names[0], r)
    ensures names != [] ==> |r| == |names[0]| || IsSpace(names[0][|names[0]| - |r| - 1])
  {
    if names == [] then Unknown
    else
      LastTokenIsSuffix(names[0]);
      SplitWords(names[0]);
      var tokens := Split(names[0]);
      tokens[|tokens| - 1]
  }

  /** The ", "-join of the retained names, or "Unknown". */
  function FullAuthors(names: seq<string>): (r: string)
    ensures names == [] ==> r == Unknown
    ensures names != [] ==> StartsWith(r, names[0]) && EndsWith(r, names[|names| - 1])
    ensures |names| == 1 ==> r == names[0]
  {
    if names == [] then Unknown
    else
      JoinEnds(", ", names);
      Join(", ", names)
  }

  // ---------------------------------------------------------------------------
  // Abstract
  // ---------------------------------------------------------------------------

  function StripAll(ps: seq<string>): (r: seq<string>)
    ensures |r| == |ps|
    ensures forall i :: 0 <= i < |ps| ==> r[i] == Strip(ps[i])
  {
    if ps == [] then [] else [Strip(ps[0])] + StripAll(ps[1..])
  }

  /** The whitespace tokens of the paragraphs, one paragraph after the other. */
  function ParagraphTokens(ps: seq<string>): seq<string> {
    if ps == [] then [] else Split(ps[0]) + ParagraphTokens(ps[1..])
  }

  lemma {:induction false} JoinStrippedTokens(ps: seq<string>)
    ensures Split(Join(" ", StripAll(ps))) == ParagraphTokens(ps)
    decreases |ps|
  {
    if |ps| == 1 {
      SplitStrip(ps[0]);
      assert ParagraphTokens(ps[1..]) == [];
    } else if |ps| > 1 {
      var rest := Join(" ", StripAll(ps[1..]));
      assert StripAll(ps)[1..] == StripAll(ps[1..]);
      assert Join(" ", StripAll(ps)) == Strip(ps[0]) + (" " + rest);
      SplitAppend(Strip(ps[0]), " " + rest);
      SplitStrip(ps[0]);
      assert (" " + rest)[1..] == rest;
      JoinStrippedTokens(ps[1..]);
    }
  }

  /**
    The abstract text before cleanup: the stripped paragraphs joined by single
    spaces, or the stripped text of the whole element when it has no paragraph.
    Either way no whitespace token is lost or invented.
   */
  function AbstractText(a: Abstract): (r: string)
    ensures a.paragraphs != [] ==> Split(r) == ParagraphTokens(a.paragraphs)
    ensures a.paragraphs == [] ==> Split(r) == Split(a.allText) && IsStripped(r)
  {
    if a.paragraphs != [] then
      JoinStrippedTokens(a.paragraphs);
      Join(" ", StripAll(a.paragraphs))
    else
      SplitStrip(a.allText);
      Strip(a.allText)
  }

  /** The noise test: a link at the start, or "figure" within the first 50 characters, ignoring case. */
  predicate LooksLikeNoise(a: string) {
    StartsWith(Lower(a), "http") || Contains(Lower(Take(a, 50)), "figure")
  }

  /** Drop everything up to and including the first ". " of a noisy abstract. */
  function CleanAbstract(a: string): (r: string)
    ensures EndsWith(a, r)
    ensures r == a <==> !(LooksLikeNoise(a) && Contains(a, ". "))
    ensures LooksLikeNoise(a) && Contains(a, ". ") ==> r == a[Find(a, ". ").value + 2..]
  {
    if LooksLikeNoise(a) then
      match Find(a, ". ")
      case Some(k) => a[k + 2..]
      case None => a
    else a
  }

  /**
    A leading link sentence is dropped: when the abstract is a link (with no
    ". " inside), then ". ", then the text, the cleaned abstract is the text.
   */
  lemma LeadingLinkDropped(link: string, rest: string)
    requires StartsWith(Lower(link), "http") && !Contains(link, ". ")
    ensures CleanAbstract(link + ". " + rest) == rest
  {
    var a := link + ". " + rest;
    var n := |link|;
    assert Lower(a)[..4] == Lower(link)[..4];
    assert LooksLikeNoise(a);
    assert a[n..n + 2] == ". ";
    assert OccursAt(a, ". ", n);
    assert a[n] == '.';
    assert Find(link, ". ").None?;
    forall j | 0 <= j < n
      ensures !OccursAt(a, ". ", j)
    {
      if j + 2 <= n {
        assert a[j..j + 2] == link[j..j + 2];
        assert !OccursAt(link, ". ", j);
      } else {
        assert a[j..j + 2][1] == a[n];
      }
    }
    var k := Find(a, ". ").value;
    assert k == n;
    assert a[n + 2..] == rest;
  }

  /** The extracted and cleaned abstract; "" when the document has no abstract element. */
  function CleanedAbstract(abs: Option<Abstract>): string {
    match abs
    case None => ""
    case Some(a) => CleanAbstract(AbstractText(a))
  }

  /** The abstract stored in the record: never empty, the placeholder standing in for an empty one. */
  function FinalAbstract(abs: Option<Abstract>): (r: string)
    ensures r != ""
    ensures CleanedAbstract(abs) == "" ==> r == NoAbstract
    ensures CleanedAbstract(abs) != "" ==> r == CleanedAbstract(abs)
    ensures abs.None? ==> r == NoAbstract
  {
    var cleaned := CleanedAbstract(abs);
    if cleaned == "" then NoAbstract else cleaned
  }

  // ---------------------------------------------------------------------------
  // References
  // ---------------------------------------------------------------------------

  ghost predicate IsNormal(t: string) {
    NoUpper(t) && IsStripped(t)
  }

  /** `t.lower().strip()`. */
  function Normalize(t: string): (r: string)
    ensures IsNormal(r)
  {
    StripNoUpper(Lower(t));
    Strip(Lower(t))
  }

  /** The set of normalised titles of the bibliography entries whose text is present and non-empty. */
  function RefSet(titles: seq<Option<string>>): (r: set<string>)
    ensures forall x :: x in r ==> IsNormal(x)
  {
    set i | 0 <= i < |titles| && titles[i].Some? && titles[i].value != "" :: Normalize(titles[i].value)
  }

  /** The titles that pass the `if t.text` filter, normalised. */
  function TitleRefs(t: Option<string>): set<string> {
    if t.Some? && t.value != "" then {Normalize(t.value)} else {}
  }

  /** The set grows title by title, so the order of the bibliography does not matter. */
  lemma RefSetAppend(titles: seq<Option<string>>, t: Option<string>)
    ensures RefSet(titles + [t]) == RefSet(titles) + TitleRefs(t)
  {
    var all := titles + [t];
    forall x | x in RefSet(all)
      ensures x in RefSet(titles) + TitleRefs(t)
    {
      var i :| 0 <= i < |all| && all[i].Some? && all[i].value != "" && x == Normalize(all[i].value);
      if i < |titles| {
        assert all[i] == titles[i];
      }
    }
    forall x | x in RefSet(titles)
      ensures x in RefSet(all)
    {
      var i :| 0 <= i < |titles| && titles[i].Some? && titles[i].value != "" && x == Normalize(titles[i].value);
      assert all[i] == titles[i];
    }
    if t.Some? && t.value != "" {
      assert all[|titles|] == t;
    }
  }

  /** The set of a concatenated bibliography is the union of the parts' sets. */
  lemma RefSetConcat(a: seq<Option<string>>, b: seq<Option<string>>)
    ensures RefSet(a + b) == RefSet(a) + RefSet(b)
  {
    var all := a + b;
    forall x | x in RefSet(all)
      ensures x in RefSet(a) + RefSet(b)
    {
      var i :| 0 <= i < |all| && all[i].Some? && all[i].value != "" && x == Normalize(all[i].value);
      if i < |a| {
        assert all[i] == a[i];
      } else {
        assert all[i] == b[i - |a|];
      }
    }
    forall x | x in RefSet(a) + RefSet(b)
      ensures x in RefSet(all)
    {
      if x in RefSet(a) {
        var i :| 0 <= i < |a| && a[i].Some? && a[i].value != "" && x == Normalize(a[i].value);
        assert all[i] == a[i];
      } else {
        var i :| 0 <= i < |b| && b[i].Some? && b[i].value != "" && x == Normalize(b[i].value);
        assert all[|a| + i] == b[i];
      }
    }
  }

  /** The order of the bibliography does not matter. */
  lemma RefSetOrder(a: seq<Option<string>>, b: seq<Option<string>>)
    ensures RefSet(a + b) == RefSet(b + a)
  {
    RefSetConcat(a, b);
    RefSetConcat(b, a);
  }

  /** Repeated bibliography entries collapse. */
  lemma RefSetDuplicate(a: seq<Option<string>>)
    ensures RefSet(a + a) == RefSet(a)
  {
    RefSetConcat(a, a);
  }

  lemma LowerNoUpper(s: string)
    requires NoUpper(s)
    ensures Lower(s) == s
  {
  }

  /** Normalising a normalised title changes nothing. */
  lemma NormalizeIdempotent(t: string)
    ensures Normalize(Normalize(t)) == Normalize(t)
  {
    var n := Normalize(t);
    LowerNoUpper(n);
    StripStripped(n);
  }

  /** A whitespace-only title passes the `if t.text` filter and contributes "". */
  lemma WhitespaceTitleGivesEmpty(titles: seq<Option<string>>, i: nat)
    requires i < |titles| && titles[i].Some? && titles[i].value != "" && AllSpace(titles[i].value)
    ensures "" in RefSet(titles)
  {
    var t := titles[i].value;
    assert AllSpace(Lower(t));
    StripEmpty(Lower(t));
    assert Normalize(t) == "";
  }

  // ---------------------------------------------------------------------------
  // The record
  // ---------------------------------------------------------------------------

  /** The record app.py lines 79-83 build for `doc` read from `filename`. */
  function RecordOf(doc: Doc, filename: string): Record {
    var names := RetainedNames(doc.authors);
    RetainedNamesRetained(doc.authors);
    Record(Title(doc.title, filename), Year(doc.date), PrimaryAuthor(names), FullAuthors(names),
           FinalAbstract(doc.abstractNode), RefSet(doc.bibTitles), filename)
  }

  /** Every field of a record has its documented shape; the title alone may be missing. */
  lemma RecordShape(doc: Doc, filename: string)
    ensures var r := RecordOf(doc, filename);
      && r.filename == filename
      && (r.year == NoYear || |r.year| <= 4)
      && (r.primaryAuthor == Unknown || IsWord(r.primaryAuthor))
      && (r.fullAuthors == Unknown <== RetainedNames(doc.authors) == [])
      && r.abstractText != ""
      && (forall x :: x in r.refs ==> IsNormal(x))
  {
  }

  /** The body of the `try` block: the per-document derivation with its author loop. */
  method DeriveRecord(doc: Doc, filename: string) returns (r: Record)
    ensures r == RecordOf(doc, filename)
  {
    var names := CollectAuthors(doc.authors);
    RetainedNamesRetained(doc.authors);
    var primary := PrimaryAuthor(names);
    var full := FullAuthors(names);
    r := Record(Title(doc.title, filename), Year(doc.date), primary, full,
                FinalAbstract(doc.abstractNode), RefSet(doc.bibTitles), filename);
  }
}
