/**
 * The document loader and the search wrapper of `search.py`.
 *
 * An archive is the sequence of its entries in `namelist()` order; the
 * directory of archives is given as a sequence already in sorted order.
 * Entry bytes are opaque, and the UTF-8 decoding of an entry is a parameter.
 */
module Search {
  import opened Wrappers
  import opened Strings

  type Bytes = seq<bv8>

  /** One member of a zip archive: its stored name and its bytes. */
  datatype Entry = Entry(name: string, data: Bytes)

  type Archive = seq<Entry>

  /** A loaded document: the archive-relative path minus its first component, and the text. */
  datatype Document = Document(filename: string, content: string)

  /** The lowercased name ends in `.md` or `.mdx`. */
  predicate IsMarkdownName(name: string) {
    var lower := AsciiLower(name);
    EndsWith(lower, ".md") || EndsWith(lower, ".mdx")
  }

  /**
   * The three guards of the inner loop let an entry through: it is not a
   * directory marker, it has a markdown extension, and it has a path separator.
   */
  predicate Kept(e: Entry) {
    !EndsWith(e.name, "/") && IsMarkdownName(e.name) && '/' in e.name
  }

  /**
   * The filter of the inner loop for one entry name: `None` when the entry is
   * skipped, and otherwise the filename the document is stored under.
   */
  function SelectName(name: string): (r: Option<string>)
    ensures r.Some? <==> Kept(Entry(name, []))
  {
    if EndsWith(name, "/") then None
    else if !IsMarkdownName(name) then None
    else
      var parts := SplitOnce(name, '/');
      if |parts| != 2 then None
      else Some(parts[1])
  }

  /** `name` is `filename` with a first component and the first `/` put in front. */
  predicate StripsFirstComponent(name: string, filename: string)
    requires |filename| < |name|
  {
    var head := name[..|name| - |filename| - 1];
    name == head + "/" + filename && '/' !in head
  }

  /** The filename is what follows the first `/` of the entry name. */
  lemma SelectNameStripsFirstComponent(name: string)
    requires SelectName(name).Some?
    ensures |SelectName(name).value| < |name|
    ensures StripsFirstComponent(name, SelectName(name).value)
  {
    var parts := SplitOnce(name, '/');
    assert name[..|name| - |parts[1]| - 1] == parts[0];
  }

  /** The stored filename keeps the markdown extension and is not a directory name. */
  lemma SelectedNameIsMarkdown(name: string)
    requires SelectName(name).Some?
    ensures IsMarkdownName(SelectName(name).value)
    ensures !EndsWith(SelectName(name).value, "/")
  {
    assert Kept(Entry(name, []));
    SelectNameStripsFirstComponent(name);
    MarkdownAfterFirstComponent(name, SelectName(name).value);
  }

  /** What follows the first component of a markdown name is itself a markdown name. */
  lemma MarkdownAfterFirstComponent(name: string, f: string)
    requires |f| < |name| && StripsFirstComponent(name, f) && IsMarkdownName(name)
    ensures IsMarkdownName(f) && !EndsWith(f, "/")
  {
    var head := name[..|name| - |f| - 1];
    assert name[|name| - |f| - 1] == '/' && name[|name| - |f|..] == f by {
      assert name == head + "/" + f;
    }
    if EndsWith(AsciiLower(name), ".md") {
      LowerSuffixSurvives(name, f, ".md");
    } else {
      LowerSuffixSurvives(name, f, ".mdx");
    }
    assert AsciiLower(f)[|f| - 1] == AsciiLowerChar(f[|f| - 1]);
  }

  /** A suffix without `/` of the lowercased name is a suffix of the lowercased part after a `/`. */
  lemma LowerSuffixSurvives(name: string, f: string, suffix: string)
    requires |f| < |name| && name[|name| - |f| - 1] == '/' && name[|name| - |f|..] == f
    requires '/' !in suffix && EndsWith(AsciiLower(name), suffix)
    ensures EndsWith(AsciiLower(f), suffix)
  {
    var lower, lowerF := AsciiLower(name), AsciiLower(f);
    forall i | 0 <= i < |suffix|
      ensures lowerF[|f| - |suffix| + i] == suffix[i]
    {
      assert f[|f| - |suffix| + i] == name[|name| - |suffix| + i];
      assert lower[|name| - |suffix|..][i] == suffix[i];
    }
  }

  /** Some entry of `z` is called `name`. */
  predicate HasEntryNamed(z: Archive, name: string) {
    exists j :: 0 <= j < |z| && z[j].name == name
  }

  /**
   * The entry `z.read(name)` reads: `ZipFile` keeps one record per name, and
   * when a name occurs twice the later entry replaces the earlier one.
   */
  function LastIndexNamed(z: Archive, name: string): (j: nat)
    requires HasEntryNamed(z, name)
    ensures j < |z| && z[j].name == name
    ensures forall j' :: j < j' < |z| ==> z[j'].name != name
  {
    if z[|z| - 1].name == name then |z| - 1
    else
      assert HasEntryNamed(z[..|z| - 1], name) by {
        var j :| 0 <= j < |z| && z[j].name == name;
        assert z[..|z| - 1][j].name == name;
      }
      LastIndexNamed(z[..|z| - 1], name)
  }

  /** The document that entry `j` of `z` produces, when it is selected. */
  function DocOf(z: Archive, j: nat, decode: Bytes -> string): Document
    requires j < |z| && Kept(z[j])
  {
    assert SelectName(z[j].name).Some? by {
      assert Kept(Entry(z[j].name, []));
    }
    assert HasEntryNamed(z, z[j].name);
    Document(SelectName(z[j].name).value, decode(z[LastIndexNamed(z, z[j].name)].data))
  }

  /** The documents produced by the first `n` entries of `z`, in entry order. */
  function ArchiveDocsUpTo(z: Archive, n: nat, decode: Bytes -> string): seq<Document>
    requires n <= |z|
  {
    if n == 0 then []
    else if !Kept(z[n - 1]) then ArchiveDocsUpTo(z, n - 1, decode)
    else ArchiveDocsUpTo(z, n - 1, decode) + [DocOf(z, n - 1, decode)]
  }

  function ArchiveDocs(z: Archive, decode: Bytes -> string): seq<Document> {
    ArchiveDocsUpTo(z, |z|, decode)
  }

  /** The documents of all archives, archive after archive. */
  function AllDocs(archives: seq<Archive>, decode: Bytes -> string): seq<Document> {
    if archives == [] then []
    else AllDocs(archives[..|archives| - 1], decode) + ArchiveDocs(archives[|archives| - 1], decode)
  }

  /** The positions, in increasing order, of the entries among the first `n` that are kept. */
  function KeptIndices(z: Archive, n: nat): (r: seq<nat>)
    requires n <= |z|
    ensures forall k :: 0 <= k < |r| ==> r[k] < n
    ensures forall k, k' :: 0 <= k < k' < |r| ==> r[k] < r[k']
    ensures forall j {:trigger Kept(z[j])} :: 0 <= j < n ==> (j in r <==> Kept(z[j]))
  {
    if n == 0 then []
    else
      var r := KeptIndices(z, n - 1);
      if !Kept(z[n - 1]) then r
      else
        assert forall j :: 0 <= j < n - 1 ==> (j in r + [n - 1] <==> j in r);
        r + [n - 1]
  }

  /**
   * Every document of an archive comes from a kept entry, every kept entry
   * gives exactly one document, and the documents follow the entry order.
   */
  lemma {:induction false} ArchiveDocsAreKeptEntries(z: Archive, n: nat, decode: Bytes -> string)
    requires n <= |z|
    ensures |ArchiveDocsUpTo(z, n, decode)| == |KeptIndices(z, n)|
    ensures forall k :: 0 <= k < |KeptIndices(z, n)| ==>
              ArchiveDocsUpTo(z, n, decode)[k] == DocOf(z, KeptIndices(z, n)[k], decode)
  {
    if n > 0 {
      ArchiveDocsAreKeptEntries(z, n - 1, decode);
      var docs, ks := ArchiveDocsUpTo(z, n - 1, decode), KeptIndices(z, n - 1);
      if Kept(z[n - 1]) {
        var d := DocOf(z, n - 1, decode);
        assert ArchiveDocsUpTo(z, n, decode) == docs + [d];
        assert KeptIndices(z, n) == ks + [n - 1];
        forall k | 0 <= k < |ks| + 1
          ensures (docs + [d])[k] == DocOf(z, (ks + [n - 1])[k], decode)
        {
          if k < |ks| {
            assert (docs + [d])[k] == docs[k] && (ks + [n - 1])[k] == ks[k];
          }
        }
      }
    }
  }

  /** What a document in the output tells about the entry that produced it. */
  lemma DocumentProvenance(z: Archive, decode: Bytes -> string, k: nat)
    requires k < |ArchiveDocs(z, decode)|
    ensures exists j :: 0 <= j < |z| && FromEntry(z, j, ArchiveDocs(z, decode)[k], decode)
  {
    ArchiveDocsAreKeptEntries(z, |z|, decode);
    var j := KeptIndices(z, |z|)[k];
    assert j in KeptIndices(z, |z|);
    assert Kept(z[j]);
    assert SelectName(z[j].name).Some? by {
      assert Kept(Entry(z[j].name, []));
    }
    SelectNameStripsFirstComponent(z[j].name);
    assert FromEntry(z, j, ArchiveDocs(z, decode)[k], decode);
  }

  /**
   * Document `d` comes from entry `j`: the entry is not a directory, has a
   * markdown extension and a path separator, `d.filename` is its name after
   * the first `/`, and `d.content` is the decoding of the bytes stored under
   * that name.
   */
  ghost predicate FromEntry(z: Archive, j: int, d: Document, decode: Bytes -> string)
    requires 0 <= j < |z|
  {
    var name := z[j].name;
    && !EndsWith(name, "/")
    && IsMarkdownName(name)
    && '/' in name
    && |d.filename| < |name|
    && StripsFirstComponent(name, d.filename)
    && HasEntryNamed(z, name)
    && d.content == decode(z[LastIndexNamed(z, name)].data)
  }

  function TotalEntries(archives: seq<Archive>): nat {
    if archives == [] then 0
    else TotalEntries(archives[..|archives| - 1]) + |archives[|archives| - 1]|
  }

  /** Each entry gives at most one document. */
  lemma {:induction false} AllDocsBound(archives: seq<Archive>, decode: Bytes -> string)
    ensures |AllDocs(archives, decode)| <= TotalEntries(archives)
  {
    if archives != [] {
      var z := archives[|archives| - 1];
      AllDocsBound(archives[..|archives| - 1], decode);
      ArchiveDocsAreKeptEntries(z, |z|, decode);
      KeptIndicesBound(z, |z|);
    }
  }

  lemma {:induction false} KeptIndicesBound(z: Archive, n: nat)
    requires n <= |z|
    ensures |KeptIndices(z, n)| <= n
  {
    if n > 0 {
      KeptIndicesBound(z, n - 1);
    }
  }

  /** The output for a list of archives is the concatenation of the outputs for its parts. */
  lemma {:induction false} AllDocsAppend(xs: seq<Archive>, ys: seq<Archive>, decode: Bytes -> string)
    ensures AllDocs(xs + ys, decode) == AllDocs(xs, decode) + AllDocs(ys, decode)
  {
    if ys != [] {
      var last := ys[|ys| - 1];
      assert (xs + ys)[..|xs + ys| - 1] == xs + ys[..|ys| - 1];
      AllDocsAppend(xs, ys[..|ys| - 1], decode);
    } else {
      assert xs + ys == xs;
    }
  }

  lemma ArchiveDocsSkip(z: Archive, e: nat, decode: Bytes -> string)
    requires e < |z| && !Kept(z[e])
    ensures ArchiveDocsUpTo(z, e + 1, decode) == ArchiveDocsUpTo(z, e, decode)
  {
  }

  lemma ArchiveDocsTake(z: Archive, e: nat, decode: Bytes -> string)
    requires e < |z| && Kept(z[e])
    ensures HasEntryNamed(z, z[e].name) && |SplitOnce(z[e].name, '/')| == 2
    ensures ArchiveDocsUpTo(z, e + 1, decode) == ArchiveDocsUpTo(z, e, decode)
              + [Document(SplitOnce(z[e].name, '/')[1], decode(z[LastIndexNamed(z, z[e].name)].data))]
  {
    assert HasEntryNamed(z, z[e].name);
  }

  /**
   * `iter_markdown_docs_from_all_zips`: walks the archives in order and
   * appends the documents of each.
   */
  method LoadMarkdownDocs(archives: seq<Archive>, decode: Bytes -> string) returns (docs: seq<Document>)
    ensures docs == AllDocs(archives, decode)
  {
    docs := [];
    for a := 0 to |archives|
      invariant docs == AllDocs(archives[..a], decode)
    {
      var found := LoadArchiveDocs(archives[a], decode);
      assert archives[..a + 1][..a] == archives[..a];
      docs := docs + found;
    }
    assert archives[..|archives|] == archives;
  }

  /**
   * The body of the `with zipfile.ZipFile(...)` block: walks the entries of
   * one archive in order and appends one document per kept entry.
   */
  method LoadArchiveDocs(z: Archive, decode: Bytes -> string) returns (docs: seq<Document>)
    ensures docs == ArchiveDocs(z, decode)
  {
    docs := [];
    for e := 0 to |z|
      invariant docs == ArchiveDocsUpTo(z, e, decode)
    {
      var name := z[e].name;
      if EndsWith(name, "/") {
        ArchiveDocsSkip(z, e, decode);
        continue;
      }
      var lower := AsciiLower(name);
      if !(EndsWith(lower, ".md") || EndsWith(lower, ".mdx")) {
        ArchiveDocsSkip(z, e, decode);
        continue;
      }
      var parts := SplitOnce(name, '/');
      if |parts| != 2 {
        ArchiveDocsSkip(z, e, decode);
        continue;
      }
      ArchiveDocsTake(z, e, decode);
      var filename := parts[1];
      var content := decode(z[LastIndexNamed(z, name)].data);
      docs := docs + [Document(filename, content)];
    }
  }

  /** Conversely, a markdown path under a root directory is stored under its path below that root. */
  lemma SelectNameBelowRoot(name: string, root: string, path: string)
    requires name == root + "/" + path && '/' !in root && IsMarkdownName(name)
    ensures SelectName(name) == Some(path)
  {
    assert name[..|root|] == root;
    IndexOfAt(name, '/', |root|);
    assert name[|root| + 1..] == path;
    var lower := AsciiLower(name);
    assert lower[|name| - 1] == 'd' || lower[|name| - 1] == 'x';
  }

  /** The three entries of a small archive: a document, a text file and a directory marker. */
  lemma {:induction false} SmallArchiveExample(decode: Bytes -> string, a: Bytes, readme: Bytes)
    ensures ArchiveDocs([Entry("pkg-root/docs/a.md", a), Entry("pkg-root/readme.txt", readme),
                         Entry("pkg-root/docs/", [])], decode)
         == [Document("docs/a.md", decode(a))]
  {
    var z := [Entry("pkg-root/docs/a.md", a), Entry("pkg-root/readme.txt", readme), Entry("pkg-root/docs/", [])];
    SmallArchiveEntries(a, readme);
    assert |z[1].name| != |z[0].name| && |z[2].name| != |z[0].name|;
    assert LastIndexNamed(z, z[0].name) == 0;
    assert DocOf(z, 0, decode) == Document("docs/a.md", decode(a));
    assert ArchiveDocsUpTo(z, 1, decode) == ArchiveDocsUpTo(z, 0, decode) + [DocOf(z, 0, decode)];
    assert ArchiveDocsUpTo(z, 2, decode) == ArchiveDocsUpTo(z, 1, decode);
  }

  /**
   * Two entries with the same name: both are kept, and both documents carry
   * the bytes of the later one, which is the one `z.read(name)` finds.
   */
  lemma {:induction false} DuplicateNameExample(decode: Bytes -> string, a: Bytes, b: Bytes)
    ensures ArchiveDocs([Entry("r/x.md", a), Entry("r/x.md", b)], decode)
         == [Document("x.md", decode(b)), Document("x.md", decode(b))]
  {
    var z := [Entry("r/x.md", a), Entry("r/x.md", b)];
    DuplicateNameDocument();
    assert Kept(z[0]) && Kept(z[1]) by {
      assert Kept(Entry("r/x.md", []));
    }
    assert LastIndexNamed(z, z[0].name) == 1;
    assert DocOf(z, 0, decode) == Document("x.md", decode(b));
    assert DocOf(z, 1, decode) == Document("x.md", decode(b));
    assert ArchiveDocsUpTo(z, 1, decode) == [DocOf(z, 0, decode)];
  }

  lemma DuplicateNameDocument()
    ensures SelectName("r/x.md") == Some("x.md")
  {
    var name := "r/x.md";
    assert name == "r" + "/" + "x.md";
    assert AsciiLower(name)[|name| - 3..] == ".md";
    SelectNameBelowRoot(name, "r", "x.md");
  }

  lemma SmallArchiveEntries(a: Bytes, readme: Bytes)
    ensures Kept(Entry("pkg-root/docs/a.md", a)) && SelectName("pkg-root/docs/a.md") == Some("docs/a.md")
    ensures !Kept(Entry("pkg-root/readme.txt", readme))
    ensures !Kept(Entry("pkg-root/docs/", []))
  {
    SmallArchiveDocument();
    ReadmeIsNotMarkdown();
    assert EndsWith("pkg-root/docs/", "/");
  }

  lemma ReadmeIsNotMarkdown()
    ensures !IsMarkdownName("pkg-root/readme.txt")
  {
    assert AsciiLower("pkg-root/readme.txt")[18] == 't';
  }

  lemma SmallArchiveDocument()
    ensures SelectName("pkg-root/docs/a.md") == Some("docs/a.md")
  {
    var name := "pkg-root/docs/a.md";
    assert name == "pkg-root" + "/" + "docs/a.md";
    MarkdownExample();
    SelectNameBelowRoot(name, "pkg-root", "docs/a.md");
  }

  lemma MarkdownExample()
    ensures IsMarkdownName("pkg-root/docs/a.md")
  {
    var name := "pkg-root/docs/a.md";
    assert AsciiLower(name)[|name| - 3..] == ".md";
  }

  /** The example of the loader's documentation: the archive's root directory is dropped. */
  lemma WelcomePageExample()
    ensures SelectName("fastmcp-main/docs/getting-started/welcome.mdx") == Some("docs/getting-started/welcome.mdx")
  {
    var name := "fastmcp-main/docs/getting-started/welcome.mdx";
    WelcomePageSplit();
    WelcomePageIsMarkdown();
    SelectNameBelowRoot(name, "fastmcp-main", "docs/getting-started/welcome.mdx");
  }

  lemma WelcomePageSplit()
    ensures "fastmcp-main/docs/getting-started/welcome.mdx" == "fastmcp-main" + "/" + "docs/getting-started/welcome.mdx"
  {
  }

  lemma WelcomePageIsMarkdown()
    ensures IsMarkdownName("fastmcp-main/docs/getting-started/welcome.mdx")
  {
    var name := "fastmcp-main/docs/getting-started/welcome.mdx";
    assert AsciiLower(name)[|name| - 4..] == ".mdx";
  }

  /**
   * Python's `s[:k]`: the first `k` items, all of them when there are fewer,
   * and for a negative `k` all but the last `-k`.
   */
  function SlicePrefix<T>(s: seq<T>, k: int): (r: seq<T>)
    ensures r <= s
    ensures 0 <= k ==> |r| == if k < |s| then k else |s|
    ensures k < 0 ==> |r| == if 0 < |s| + k then |s| + k else 0
  {
    if 0 <= k then (if k < |s| then s[..k] else s)
    else if 0 < |s| + k then s[..|s| + k] else []
  }

  /** Truncating a second time to the same `k` changes nothing. */
  lemma SlicePrefixIdempotent<T>(s: seq<T>, k: int)
    requires 0 <= k
    ensures SlicePrefix(SlicePrefix(s, k), k) == SlicePrefix(s, k)
  {
  }

  /**
   * The richest call form an index's `search` accepts:
   * `search(query, filter_dict, boost_dict, num_results=k)`,
   * `search(query, filter_dict, boost_dict, k)`, or only
   * `search(query, filter_dict, boost_dict)`.
   */
  datatype SearchSignature = KeywordNumResults | PositionalNumResults | NoNumResults

  /**
   * `search`: the engine is called with an empty filter and boost, and with
   * `Some(k)` as the result count when its signature takes one or `None` for
   * its default count; only in the last case is the list cut to `k` here.
   */
  function RunSearch<D>(signature: SearchSignature, engine: (string, Option<int>) -> seq<D>,
                        query: string, k: int): (r: seq<D>)
    ensures !signature.NoNumResults? ==> r == engine(query, Some(k))
    ensures signature.NoNumResults? ==> r <= engine(query, None)
    ensures signature.NoNumResults? && 0 <= k ==>
              |r| == if k < |engine(query, None)| then k else |engine(query, None)|
    ensures signature.NoNumResults? && k < 0 ==>
              |r| == if 0 < |engine(query, None)| + k then |engine(query, None)| + k else 0
  {
    match signature
    case KeywordNumResults => engine(query, Some(k))
    case PositionalNumResults => engine(query, Some(k))
    case NoNumResults => SlicePrefix(engine(query, None), k)
  }
}
