# SemanticLibrary core, modelled in Dafny

SemanticLibrary turns a folder of scholarly PDFs into an interactive graph in
which two papers are linked when their bibliographies cite the same titles.
This project models the part of `app.py` with real logic:

- `extract_metadata_and_refs`, from the point where Grobid has written its
  TEI files. The model covers the loop over the directory listing. A file is
  skipped unless its name ends in `.grobid.tei.xml`, and a file that fails to
  parse is skipped too. For each remaining file the model derives one record:
  - the title, falling back to the file name;
  - the year, the first four characters of `when`, or "N/A";
  - the retained author names, the primary author and the joined author list;
  - the abstract, with its link/figure cleanup and its placeholder;
  - the set of normalised reference titles.
- `build_connected_graph`: the all-pairs loop that adds an edge weighted by
  the number of shared reference titles, the degree-based node size, the
  four-word label, and the node and edge calls made on the pyvis network.
- The entry point, which builds the graph only when at least one record was
  extracted.

Modules:

| module | file | what it holds |
|---|---|---|
| `Wrappers` | `wrappers.dfy` | `Option` |
| `Text` | `text.dfy` | ASCII `lower`, `strip()`, `split()`, `join`, `find`, `startswith`/`endswith`, and their lemmas |
| `Tei` | `tei.dfy` | the parts of a TEI document the extractor queries, as values |
| `Gather` | `gather.dfy` | the "append what each element yields" loop shape shared by the author loop and the file loop |
| `Extract` | `extract.dfy` | the record of one document |
| `Batch` | `batch.dfy` | the per-file loop |
| `Overlap` | `overlap.dfy` | the edge loops and node degree |
| `Render` | `render.dfy` | the pyvis `Network` as a class, the node and edge loops, the entry point |
| `Scenarios` | `scenarios.dfy` | documented examples proved on concrete inputs |

ElementTree query results are values (`Tei.Doc`). A query that can find
nothing, or an element whose `.text` is None, is `Option<Option<string>>`.
Each loop that grows a list (`author_list`, `data`) is a `method` with a
`while` loop. Each such method is proved equal to a function of its input
(`RetainedNames`, `Records`), and the lemmas state the properties of that
function. The networkx graph is a map from pairs `(i, j)` with `i < j` to
weights.

In four places the evident intention of `app.py` and what its lines do part
ways; the model follows the lines:

- **Title.** A missing title is meant to fall back to the file name. A title
  element whose text is None gives the title None instead (`Extract.Title`),
  and the label then reads "None" (`Render.TitleText`).
- **Year.** A four-digit year is intended. Line 36 takes the first four
  characters of any non-empty `when`, so "19" gives "19".
- **Author name parts.** A missing name part is meant to become "". That only
  holds when the element is missing: an element whose text is None is
  formatted by the f-string as "None" (`Extract.PartText`).
- **Reference titles.** Empty titles are meant to be excluded. Line 77
  filters on `t.text` before stripping, so a whitespace-only title adds "" to
  the set (`Extract.WhitespaceTitleGivesEmpty`), and two papers with such
  titles share a reference.

## Model

| member | source | states |
|---|---|---|
| Text.Lower | app.py:67 | ASCII `lower()`: same length, each upper-case letter mapped to lower case and every other character kept, no upper case left |
| Text.Take | app.py:36 | `s[:n]`: the first `min(n, len(s))` elements of `s` |
| Text.Strip | app.py:47 | `strip()` never lengthens a string, and the result has whitespace at neither end |
| Text.StripInfix | app.py:47 | `strip()` keeps one contiguous slice of its input, and everything around that slice is whitespace |
| Text.DropFirstSpace | app.py:47 | a slice with whitespace margins in the tail is one in the whole string when the dropped first character is whitespace |
| Text.DropLastSpace | app.py:47 | the same when the dropped last character is whitespace |
| Text.StripEmpty | app.py:47-48 | a name or title strips to the empty string exactly when it is all whitespace |
| Text.StripNoUpper | app.py:77 | stripping a lower-cased string leaves it free of upper case |
| Text.StripStripped | app.py:77 | a string with no whitespace at either end is its own `strip()` |
| Text.WordLen | app.py:51 | the run at the front of a string is free of whitespace and ends at whitespace or at the end |
| Text.TailWordLen | app.py:51 | the run at the back of a string is free of whitespace and starts after whitespace or at the start |
| Text.StartsWith | app.py:67 | `str.startswith`: no contract of its own; used by Extract.LooksLikeNoise, Extract.Year and Text.JoinEnds |
| Text.EndsWith | app.py:24 | `str.endswith`: no contract of its own; used by Batch.IsTeiFile, Text.LastTokenIsSuffix and Extract.CleanAbstract |
| Text.Split | app.py:51 | `str.split()`: no contract of its own; its tokens are characterised by Text.SplitWords, Text.SplitStrip, Text.SplitAppend and Text.SplitJoin |
| Text.Join | app.py:104 | `sep.join`: no contract of its own; Text.SplitJoin and Text.JoinEnds state what it builds |
| Text.Contains | app.py:67 | `p in s`: holds exactly when Text.Find finds an occurrence, so at some position by Find's contract |
| Text.SplitWords | app.py:51 | every piece of `split()` is non-empty and free of whitespace |
| Text.SplitAllSpace | app.py:61 | an all-whitespace string splits into no tokens |
| Text.WordLenAppend | app.py:61 | appending after a whitespace boundary does not change the first token |
| Text.SplitAppend | app.py:61 | `split()` of a concatenation at a whitespace boundary is the concatenation of the splits |
| Text.SplitAppendWord | app.py:61 | the same, when the first part starts with a token |
| Text.SplitStrip | app.py:61 | `s.strip().split() == s.split()` |
| Text.SplitWord | app.py:104 | a single token splits into itself |
| Text.SplitJoin | app.py:104 | joining tokens with single spaces and splitting again gives back the tokens |
| Text.LastTokenIsSuffix | app.py:51 | a string not ending in whitespace has a last token, which ends the string and is either all of it or preceded by whitespace |
| Text.JoinEnds | app.py:52 | a join starts with its first string and ends with its last |
| Text.Find | app.py:69 | `find`: the leftmost occurrence when there is one, and no occurrence anywhere when it gives none |
| Text.OccursAtTail | app.py:69 | an occurrence at position j > 0 is an occurrence at j - 1 in the tail |
| Extract.Title | app.py:31-32 | no title element gives the file name; an element without text gives no title; otherwise its text |
| Extract.Year | app.py:35-36 | a non-empty `when` gives its first `min(4, len)` characters as a prefix; otherwise "N/A" |
| Extract.PartText | app.py:45-46 | the text of a forename or surname: "" without an element, "None" for an element without text; no contract of its own, its cases are the body |
| Extract.FullName | app.py:47 | the stripped `"forename surname"`; Text.Strip and Text.StripInfix state what stripping keeps |
| Extract.NameOf | app.py:42-49 | the names one author entry contributes; Extract.NameOfYields characterises them |
| Extract.RetainedNames | app.py:39-49 | `author_list` as a function of the entries; Extract.RetainedNamesMembers, Extract.RetainedNamesRetained and Extract.RetainedNamesAppend state its content and order |
| Extract.NameOfYields | app.py:42-49 | one author entry contributes a name exactly when it has a persName whose stripped name is non-empty |
| Extract.CollectAuthors | app.py:39-49 | the author loop builds exactly the retained names of the entries, in document order |
| Extract.CollectStep | app.py:42-49 | visiting entry i appends its stripped name when it has a persName and the name is non-empty, and nothing otherwise |
| Extract.RetainedNamesMembers | app.py:40-49 | a name is in `author_list` exactly when some entry with a persName yields it, non-empty |
| Extract.RetainedNamesRetained | app.py:47-49 | every kept name is non-empty and has no surrounding whitespace |
| Extract.RetainedNamesAppend | app.py:40-49 | the names of concatenated author lists are the concatenated names: order is kept |
| Extract.PrimaryAuthor | app.py:51 | "Unknown" without names; otherwise a whitespace-free token that ends the first name and is all of it or preceded by whitespace (its last token) |
| Extract.FullAuthors | app.py:52 | "Unknown" without names; otherwise a string starting with the first name and ending with the last, equal to the name when there is only one |
| Extract.StripAll | app.py:61 | each paragraph stripped, one for one |
| Extract.JoinStrippedTokens | app.py:61 | joining the stripped paragraphs with spaces keeps exactly their tokens, paragraph after paragraph |
| Extract.AbstractText | app.py:59-64 | with paragraphs, the text has exactly the paragraphs' tokens; without them, it has the element's tokens and no surrounding whitespace |
| Extract.LooksLikeNoise | app.py:67 | the noise test: the lower-cased abstract starts with "http" or its lower-cased first 50 characters contain "figure"; Extract.CleanAbstract and Extract.LeadingLinkDropped use it |
| Extract.CleanAbstract | app.py:67-71 | the result is a suffix of the input; it differs from the input exactly when the noise test holds and ". " occurs; it then starts right after the first ". " |
| Extract.LeadingLinkDropped | app.py:66-71 | a leading link sentence without ". " in it is dropped, leaving exactly the text after the first ". " |
| Extract.CleanedAbstract | app.py:55-71 | "" without an abstract element, otherwise the cleaned text; Extract.FinalAbstract states the stored value in its terms |
| Extract.FinalAbstract | app.py:73-74 | the stored abstract is never empty: the cleaned text, or the placeholder when that is empty or there is no abstract element |
| Extract.Normalize | app.py:77 | `lower().strip()` leaves no upper case and no surrounding whitespace |
| Extract.RefSet | app.py:77 | every stored reference title is normalised |
| Extract.RefSetAppend | app.py:77 | one more bibliography title adds its normal form when it passes the `if t.text` filter, and nothing otherwise |
| Extract.RefSetConcat | app.py:77 | the set of a concatenated bibliography is the union of the parts' sets |
| Extract.RefSetOrder | app.py:77 | swapping two parts of the bibliography gives the same set |
| Extract.RefSetDuplicate | app.py:77 | repeating the bibliography gives the same set: duplicates collapse |
| Extract.LowerNoUpper | app.py:77 | lower-casing a string without upper case does nothing |
| Extract.NormalizeIdempotent | app.py:77 | normalising a normalised title changes nothing |
| Extract.WhitespaceTitleGivesEmpty | app.py:77 | a whitespace-only bibliography title puts "" into the reference set |
| Extract.RecordOf | app.py:79-83 | the record of one document, field by field; Extract.RecordShape and Extract.DeriveRecord state its shape and its computation |
| Extract.RecordShape | app.py:79-83 | a record keeps its file name; its year is "N/A" or at most four characters; its primary author is "Unknown" or one token; its author list is "Unknown" when no name is kept; its abstract is non-empty; its references are normalised |
| Extract.DeriveRecord | app.py:30-83 | the body of the `try` block builds the record the field functions define |
| Batch.IsTeiFile | app.py:24 | the name ends in `.grobid.tei.xml`; Batch.RecordsFromTeiFiles and Batch.SkippedEntry use it |
| Batch.EntryRecords | app.py:24-83 | what one listing entry adds to `data`; Batch.ExtractStep, Batch.SkippedEntry and Batch.KeptEntry state it |
| Batch.Records | app.py:79-83 | `data` as a function of the listing; Batch.RecordsMembers, Batch.RecordsAppend and Batch.RecordsFromTeiFiles state its content and order |
| Batch.ExtractStep | app.py:24-83 | visiting one listing entry appends its record when it is a TEI file that parses, and nothing otherwise |
| Batch.ExtractAll | app.py:20-87 | the file loop builds exactly the records of the TEI files that parse, in listing order |
| Batch.RecordsAppend | app.py:23-83 | the records of a concatenated listing are the concatenated records |
| Batch.SkippedEntry | app.py:24 | a file that is not Grobid output, or fails to parse (lines 84-85), is left out and changes nothing else |
| Batch.KeptEntry | app.py:79-83 | a TEI file that parses contributes its own record at its own place in the listing |
| Batch.RecordsMembers | app.py:23-83 | a record is produced exactly when some TEI file of the listing parses into it |
| Batch.RecordsFromTeiFiles | app.py:24 | every record comes from a file named `*.grobid.tei.xml` and carries that file's name |
| Overlap.RefSets | app.py:93 | the i-th reference set is the i-th record's `refs` |
| Overlap.AllPairsDone | app.py:91-95 | once every pair has been handled, the graph is exactly the pairwise specification |
| Overlap.PairStep | app.py:93-95 | handling pair (i, j) adds its edge with the shared-title count exactly when that count is positive |
| Overlap.RowStep | app.py:91-92 | the row of paper i starts at j = i + 1, and a finished row is the start of the next |
| Overlap.AddRowEdges | app.py:92-95 | the inner loop over j adds exactly the edges from i to later papers |
| Overlap.BuildEdges | app.py:90-95 | the nested loops build exactly one edge per pair i < j sharing a reference, weighted by the size of the intersection |
| Overlap.EdgesSpec | app.py:93-95 | an edge exists exactly for the pairs i < j that share a reference, and its weight is at least 1: no self-edges, no zero weights |
| Overlap.EdgesSymmetric | app.py:93-95 | each unordered pair has one key, present exactly when the papers share a reference, with the same weight either way round |
| Overlap.NoRefsIsolated | app.py:93-94 | a paper without references has no incident edge and degree 0 |
| Overlap.Degree | app.py:100 | `G.degree(v) if v in G else 0` is the number of edges incident to v, including 0 for a node not in the graph |
| Overlap.PairImageSize | app.py:100 | the keys of the pairs between v and distinct other papers are distinct |
| Overlap.DegreeIsNeighbourCount | app.py:100 | a paper's degree is the number of other papers it shares a reference with |
| Overlap.DegreeZeroIff | app.py:100 | degree 0 exactly when the paper shares no reference with any other paper |
| Render.NodeSize | app.py:101 | the size is at least 15, exactly 15 for degree 0, and 15 plus a multiple of 3 |
| Render.NodeSizeMonotonic | app.py:101 | a larger degree never gives a smaller node |
| Render.TitleText | app.py:104 | `str(title)`: the title's text, or "None" when there is no title; no contract of its own, its two cases are the body |
| Render.Label | app.py:104 | the label's tokens are the first (at most) four tokens of the title text, and the label is exactly those tokens joined by single spaces |
| Render.NodeFor | app.py:103-110 | the node of record i; Render.AddRecordNodes and Render.IsolatedNodeSize state what is drawn |
| Render.IsolatedNodeSize | app.py:100-101 | a node has the base size exactly when its paper shares no reference with any other paper |
| Render.VisualEdgesSpec | app.py:112-113 | each drawn edge is a graph edge with its weight as value, and each graph edge is drawn |
| Render.EdgesForStep | app.py:112-113 | drawing one more graph edge adds exactly its visual edge |
| Render.ElementsOfAppend | app.py:113 | appending an edge adds exactly that edge to the drawn set |
| Render.Network.constructor | app.py:97 | a new network has no nodes and no edges |
| Render.Network.AddNode | app.py:103-110 | appends one node and leaves the edges alone |
| Render.Network.AddEdge | app.py:113 | appends one edge and leaves the nodes alone |
| Render.AddRecordNodes | app.py:99-110 | node i is record i's node, with its label, its degree-based size and its metadata; one node per record |
| Render.AddGraphEdges | app.py:112-113 | the nodes are unchanged, and exactly the graph's edges are drawn, one call per edge |
| Render.BuildConnectedGraph | app.py:89-113 | the graph is the overlap specification; the network has one node per record and draws the graph's edges |
| Render.Run | app.py:196-200 | the records are those of the listing; a network is built exactly when there is at least one record |
| Scenarios.YearScenarios | app.py:36 | "2019-11-02" gives "2019"; a date without `when`, or with an empty one, gives "N/A"; "19" gives "19" |
| Scenarios.LowerPaperA | app.py:77 | "Paper A" lower-cases to "paper a" |
| Scenarios.LowerPaperASpace | app.py:77 | "paper a " lower-cases to itself |
| Scenarios.NormalizeTitleCase | app.py:77 | "Paper A" normalises to "paper a" |
| Scenarios.NormalizeTrailingBlank | app.py:77 | "paper a " normalises to "paper a" |
| Scenarios.OneSharedReferenceOneEdge | app.py:91-95 | two papers sharing exactly one reference get exactly one edge, of weight 1 |

## Left out

- The Grobid client call, the creation of the output folder and progress output (lines 10-18): an external service. Its result is the given listing.
- `os.listdir` and `ET.parse` (lines 23, 27): the listing is a parameter, a sequence of file names each paired with the parse outcome (a document or an exception).
- The error message of a failing file (line 85): output only; the skipping itself is modelled.
- The XML tree and the XPath-like queries: each document is given as the values those queries return (`Tei.Doc`), with `itertext()` already concatenated.
- pandas: the DataFrame is the sequence of records in row order, so `iterrows` gives the indices 0 to n-1.
- networkx: the graph is its edge map. The iteration order of `G.edges` and the orientation of each edge are not modelled. Edges are drawn as `(i, j)` with `i < j`, and the drawn edges are compared as a set.
- pyvis styling, colours, physics options and the "connected" layout, `save_graph`, the sidebar HTML and JavaScript, writing the file and `webbrowser.open` (lines 97, 106, 113 options, and 115-195): presentation and I/O only.
- Python strings are Unicode: `lower()`, `strip()` and `split()` are modelled on ASCII only. The model uses the ASCII characters `str.isspace` accepts and the letters A-Z. Non-ASCII whitespace and case mappings that change a string's length are not modelled.
- Text.Strip: its own contract states only the length bound and the trimmed ends. That it keeps one contiguous slice and removes only whitespace around it is the separate lemma Text.StripInfix.
- Extract.FullAuthors: states the first and last names and the single-name case, not the full `", "` layout in between.
- Extract.PrimaryAuthor: requires the first name to be non-empty and stripped. The author loop guarantees this (Extract.RetainedNamesRetained), and it is what makes `split()[-1]` well defined at line 51.
- Extract.RecordShape: states the shape of each field but not its value; the field functions' own contracts do that.
