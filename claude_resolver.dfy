/** Entry-file resolution of the "claude" converter (`find_main_tex_file`):
    conventional names first, then the first top-level `.tex` file whose text
    holds `\begin{document}`, then the first top-level `.tex` file. */
module ClaudeResolver {
  import opened Wrappers
  import opened Text

  /** One entry of the extracted paper directory, in traversal order.
      `dir` is the containing directory relative to the paper directory ("" for
      the paper directory itself). `content` is what `open(...).read()` with
      `errors='ignore'` gives, or `None` when opening fails: a directory, or a
      file that cannot be read. */
  datatype Entry = Entry(dir: string, name: string, content: Option<string>)

  datatype Error = NoTexFiles

  const CommonNames: seq<string> := ["main.tex", "paper.tex", "manuscript.tex", "article.tex", "arxiv.tex"]
  const DocumentMarker: string := "\\begin{document}"

  /** An entry `paper_dir.glob("*.tex")` lists: at top level, name ending in `.tex`
      (case-sensitive; hidden names and directories included). */
  predicate IsTopTex(e: Entry) {
    e.dir == "" && EndsWith(e.name, ".tex")
  }

  /** `(paper_dir / name).exists()`: some top-level entry has that name. */
  function Exists(entries: seq<Entry>, name: string): (b: bool)
    ensures b <==> exists e :: e in entries && e.dir == "" && e.name == name
  {
    if entries == [] then false
    else (entries[0].dir == "" && entries[0].name == name) || Exists(entries[1..], name)
  }

  /** The glob result, in traversal order. */
  function TexGlob(entries: seq<Entry>): (g: seq<Entry>)
    ensures forall e :: e in g <==> e in entries && IsTopTex(e)
  {
    if entries == [] then []
    else (if IsTopTex(entries[0]) then [entries[0]] else []) + TexGlob(entries[1..])
  }

  /** The entries at top level, in traversal order. */
  function TopLevel(entries: seq<Entry>): (t: seq<Entry>)
    ensures forall e :: e in t <==> e in entries && e.dir == ""
  {
    if entries == [] then []
    else (if entries[0].dir == "" then [entries[0]] else []) + TopLevel(entries[1..])
  }

  /** The first of `names` that exists at top level. */
  function FirstExisting(entries: seq<Entry>, names: seq<string>): (r: Option<string>)
    ensures r.Some? ==> r.value in names && Exists(entries, r.value)
    ensures r.None? ==> forall n :: n in names ==> !Exists(entries, n)
  {
    if names == [] then None
    else if Exists(entries, names[0]) then Some(names[0])
    else FirstExisting(entries, names[1..])
  }

  /** The file could be read and its text holds the marker (the scan). */
  predicate HasMarker(e: Entry) {
    e.content.Some? && Contains(e.content.value, DocumentMarker)
  }

  /** The file could be read and `'\begin{document}' in content` holds. */
  ghost predicate HoldsMarker(e: Entry) {
    e.content.Some? && Occurs(DocumentMarker, e.content.value)
  }

  /** The first listed entry whose text holds the marker. */
  function FirstWithMarker(g: seq<Entry>): (r: Option<string>)
    ensures r.Some? ==> exists e :: e in g && HasMarker(e) && e.name == r.value
  {
    if g == [] then None
    else if HasMarker(g[0]) then Some(g[0].name)
    else FirstWithMarker(g[1..])
  }

  function FindMainTexFile(entries: seq<Entry>): (r: Result<string, Error>)
    ensures r.Ok? ==> exists e :: e in entries && IsTopTex(e) && e.name == r.value
    ensures r.Err? <==> TexGlob(entries) == []
  {
    match FirstExisting(entries, CommonNames)
    case Some(n) =>
      CommonNamesAreTex(n);
      Ok(n)
    case None =>
      var g := TexGlob(entries);
      match FirstWithMarker(g)
      case Some(n) => Ok(n)
      case None => if g == [] then Err(NoTexFiles) else Ok(g[0].name)
  }

  /** Every conventional name is itself a `.tex` name. */
  lemma CommonNamesAreTex(n: string)
    requires n in CommonNames
    ensures EndsWith(n, ".tex")
  {
    assert n == CommonNames[0] || n == CommonNames[1] || n == CommonNames[2]
      || n == CommonNames[3] || n == CommonNames[4];
  }

  /** `FirstExisting` picks the earliest name of the list that exists. */
  lemma {:induction false} FirstExistingIsEarliest(entries: seq<Entry>, names: seq<string>, k: nat)
    requires k < |names| && Exists(entries, names[k])
    requires forall j :: 0 <= j < k ==> !Exists(entries, names[j])
    ensures FirstExisting(entries, names) == Some(names[k])
  {
    if k > 0 {
      assert !Exists(entries, names[0]);
      FirstExistingIsEarliest(entries, names[1..], k - 1);
    }
  }

  /** The conventional names are tried in list order and win over any marker. */
  lemma CommonNamePriority(entries: seq<Entry>, k: nat)
    requires k < |CommonNames| && Exists(entries, CommonNames[k])
    requires forall j :: 0 <= j < k ==> !Exists(entries, CommonNames[j])
    ensures FindMainTexFile(entries) == Ok(CommonNames[k])
  {
    FirstExistingIsEarliest(entries, CommonNames, k);
  }

  /** `FirstWithMarker` picks the earliest entry whose text holds the marker;
      unreadable entries before it are passed over. */
  lemma {:induction false} FirstWithMarkerIsEarliest(g: seq<Entry>, j: nat)
    requires j < |g| && HoldsMarker(g[j])
    requires forall i :: 0 <= i < j ==> !HoldsMarker(g[i])
    ensures FirstWithMarker(g) == Some(g[j].name)
  {
    if g[0].content.Some? {
      ContainsOccurs(g[0].content.value, DocumentMarker);
    }
    if j > 0 {
      FirstWithMarkerIsEarliest(g[1..], j - 1);
    }
  }

  /** No marker anywhere in the listed entries. */
  lemma {:induction false} NoMarkerFound(g: seq<Entry>)
    requires forall e :: e in g ==> !HoldsMarker(e)
    ensures FirstWithMarker(g) == None
  {
    if g != [] {
      assert g[0] in g;
      assert forall e :: e in g[1..] ==> e in g;
      if g[0].content.Some? {
        ContainsOccurs(g[0].content.value, DocumentMarker);
      }
      NoMarkerFound(g[1..]);
    }
  }

  /** With no conventional name present, the first globbed file holding
      `\begin{document}` is chosen. */
  lemma MarkerRule(entries: seq<Entry>, j: nat)
    requires forall n :: n in CommonNames ==> !Exists(entries, n)
    requires j < |TexGlob(entries)| && HoldsMarker(TexGlob(entries)[j])
    requires forall i :: 0 <= i < j ==> !HoldsMarker(TexGlob(entries)[i])
    ensures FindMainTexFile(entries) == Ok(TexGlob(entries)[j].name)
  {
    FirstWithMarkerIsEarliest(TexGlob(entries), j);
  }

  /** With neither a conventional name nor a marker, the first globbed file is
      chosen. */
  lemma FirstTexFallback(entries: seq<Entry>)
    requires forall n :: n in CommonNames ==> !Exists(entries, n)
    requires forall e :: e in TexGlob(entries) ==> !HoldsMarker(e)
    requires TexGlob(entries) != []
    ensures FindMainTexFile(entries) == Ok(TexGlob(entries)[0].name)
  {
    NoMarkerFound(TexGlob(entries));
  }

  /** Only the top level matters: `.tex` files in subdirectories neither
      change the choice nor prevent the error. */
  lemma SubdirectoriesIgnored(entries: seq<Entry>)
    ensures FindMainTexFile(TopLevel(entries)) == FindMainTexFile(entries)
  {
    TexGlobTopLevel(entries);
    forall n | n in CommonNames
      ensures Exists(TopLevel(entries), n) == Exists(entries, n)
    {
    }
    FirstExistingSame(entries, TopLevel(entries), CommonNames);
  }

  lemma {:induction false} TexGlobTopLevel(entries: seq<Entry>)
    ensures TexGlob(TopLevel(entries)) == TexGlob(entries)
  {
    if entries != [] {
      TexGlobTopLevel(entries[1..]);
      var h := if entries[0].dir == "" then [entries[0]] else [];
      TexGlobAppend(h, TopLevel(entries[1..]));
    }
  }

  /** The glob keeps traversal order: globbing two runs of entries one after
      the other lists the first run's files before the second's. */
  lemma {:induction false} TexGlobAppend(a: seq<Entry>, b: seq<Entry>)
    ensures TexGlob(a + b) == TexGlob(a) + TexGlob(b)
  {
    if a == [] {
      assert a + b == b;
    } else {
      assert (a + b)[1..] == a[1..] + b;
      TexGlobAppend(a[1..], b);
    }
  }

  lemma {:induction false} FirstExistingSame(x: seq<Entry>, y: seq<Entry>, names: seq<string>)
    requires forall n :: n in names ==> Exists(x, n) == Exists(y, n)
    ensures FirstExisting(x, names) == FirstExisting(y, names)
  {
    if names != [] {
      FirstExistingSame(x, y, names[1..]);
    }
  }
}
