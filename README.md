# arxiv2epub decision core in Dafny

arxiv2epub turns an arXiv paper into an EPUB. It ships two independent
scripts. Around network downloads, archive extraction and pandoc calls, each
script makes a few decisions on strings and file lists. This project models
those decisions and proves what they do:

- **Identifier normalisation** (`ArxivId`, from `claude/arxiv_to_epub.py`).
  `extract_arxiv_id` accepts a bare identifier `digits.digits(vdigits)?`, or
  takes the identifier that follows `abs/` or `pdf/` in a URL's path. Anything
  else raises `ValueError`. The version suffix is then stripped before the
  source download. The two regular expressions are hand-written scanners. They
  are proved equal to a position-by-position description of the identifier
  language: leftmost, longest, with Python's `$` accepting a final newline.
- **Entry-file resolution, "claude" script** (`ClaudeResolver`). This is a pure
  function over the extracted directory, given as a list of entries in
  traversal order. It tries conventional names, then the first top-level
  `.tex` file holding `\begin{document}`, then the first top-level `.tex`
  file, and otherwise raises an error.
- **Entry-file resolution, "chatgpt" script** (`ChatgptResolver`). It is
  imperative like its source:
  - nested loops over `os.walk` collect every `.tex` file at any depth (the
    test ignores case);
  - an exact-basename hint is honoured or fails;
  - otherwise a single candidate wins, or the largest one (the first on ties).
- **TeX sanitiser** (`Sanitizer`). Each `re.sub` of the fixed rewrite table is
  a left-to-right scanner over the remaining text. The table runs in order
  after the citation rule. Every table command is proved to produce its
  output end to end. The scanner functions `Sanitizer.ApplyRule` and
  `Sanitizer.ApplyRules` carry no postcondition of their own. Their behaviour
  is stated by the lemmas `PlainPrefix`, `BracedRewrite`,
  `GraphicsOptionsRewrite`, `NoMatchThen`, `NoCloseKept` and
  `ApplyRulesAppend`.
- **Preprocessing with backup** (`Preprocess`). `preprocess_tex_file` is a
  method on a class that holds the files as a map:
  - it copies the file to its `.tex.bak` backup;
  - it reads the text in text mode, where every `\r\n` or `\r` becomes
    `\n` (`Preprocess.ReadText`), and runs the rewrite in a loop over the
    table;
  - it writes the result back, or restores the backup when reading or writing
    fails.

The calls into the outside world become parameters: `urlparse(...).path`, the
directory listing, `os.walk`, `os.path.getsize`, and the failure points of the
file operations.

Two behaviours of the rewrite are easy to miss:

- Every `\cite{...}` becomes the literal `[\1]`. The replacement template
  escapes its backslash, so the key is lost (see Findings).
- The rewrite is not idempotent. `Sanitizer.SanitizeNotIdempotent` is a
  counterexample: `\re\label{}f{k}` becomes `\ref{k}`, which a second pass
  turns into `[ref]`.

## Model

| member | source | states |
|---|---|---|
| ArxivId.ExtractArxivId | claude/arxiv_to_epub.py:41-56 | Input starting with `http` is rejected iff no identifier follows `abs/` or `pdf/` in its path; otherwise the result is the leftmost, longest such identifier. Other input is accepted iff it has the identifier shape, alone or before one final newline, and is then returned unchanged. |
| ArxivId.NotAnIdRejected | claude/arxiv_to_epub.py:51-56 | `"not-an-id"` raises the invalid-identifier error. |
| ArxivId.SearchId | claude/arxiv_to_epub.py:48-50 | The search finds nothing iff no marker is followed by an identifier. What it returns is an identifier, and the leftmost and longest after a marker. |
| ArxivId.FindMarkedIdComplete | claude/arxiv_to_epub.py:48 | The scan for a marked position finds one iff some marker is followed by an identifier. |
| ArxivId.FirstMarkedIdIsLeftmostLongest | claude/arxiv_to_epub.py:48 | The text matched at the first marker is the leftmost, longest identifier that follows any marker. |
| ArxivId.FindMarkedId | claude/arxiv_to_epub.py:48 | The search returns the first position where a marker is followed by a match, and finds none iff there is no such position. |
| ArxivId.MatchesBareId | claude/arxiv_to_epub.py:53 | The anchored match succeeds iff the whole text is an identifier, or an identifier and a final newline. |
| ArxivId.BareMatchLength | claude/arxiv_to_epub.py:53 | The scan from the start covers exactly a whole identifier, or the identifier before a final newline, and whatever it covers is an identifier. |
| ArxivId.IdMatchSound | claude/arxiv_to_epub.py:48 | A successful scan of `\d+\.\d+(?:v\d+)?` covers exactly an identifier-shaped span. |
| ArxivId.IdMatchLongest | claude/arxiv_to_epub.py:48 | The greedy scan is at least as long as any identifier starting at that position. |
| ArxivId.StripVersion | claude/arxiv_to_epub.py:63 | A `v<digits>` that ends the text, or ends it before a final newline, is removed and the newline kept. A text without one is returned unchanged. |
| ArxivId.VersionTailFound | claude/arxiv_to_epub.py:63 | The backward run of digits from the end reaches exactly the `v` of any version tail, so there is at most one. |
| ArxivId.StripVersionGivesBase | claude/arxiv_to_epub.py:63 | Stripping turns a versioned identifier into its base, leaves an unversioned one unchanged (with or without a final newline), and yields an unversioned identifier. |
| ArxivId.StripVersionAt | claude/arxiv_to_epub.py:63 | Only the trailing `v<digits>` is removed, and a final newline is kept. |
| ClaudeResolver.FindMainTexFile | claude/arxiv_to_epub.py:97-125 | Any result is a top-level `.tex` entry. The error is raised iff the top level holds no `.tex` file. |
| ClaudeResolver.CommonNamePriority | claude/arxiv_to_epub.py:100-106 | The conventional names are tried in list order. The first one present wins, ahead of any content match. |
| ClaudeResolver.FirstExistingIsEarliest | claude/arxiv_to_epub.py:102-106 | The name chosen is the earliest one in the list that exists. |
| ClaudeResolver.FirstExisting | claude/arxiv_to_epub.py:102-106 | The name found is in the list and exists. With none found, no listed name exists. |
| ClaudeResolver.Exists | claude/arxiv_to_epub.py:104 | A name exists iff some top-level entry carries it. |
| ClaudeResolver.TexGlob | claude/arxiv_to_epub.py:109 | The glob lists exactly the top-level entries whose name ends in `.tex`. |
| ClaudeResolver.TexGlobAppend | claude/arxiv_to_epub.py:109 | The glob keeps traversal order: for two runs of entries in turn, it lists the first run's files before the second's. |
| ClaudeResolver.TopLevel | claude/arxiv_to_epub.py:109 | Exactly the entries of the directory itself are kept. |
| ClaudeResolver.FirstWithMarker | claude/arxiv_to_epub.py:108-117 | A name returned belongs to a listed entry whose text holds the marker. |
| ClaudeResolver.MarkerRule | claude/arxiv_to_epub.py:108-117 | With no conventional name present, the first globbed file whose text holds `\begin{document}` is chosen. Unreadable files before it are passed over. |
| ClaudeResolver.FirstWithMarkerIsEarliest | claude/arxiv_to_epub.py:108-117 | The scan returns the earliest entry holding the marker and skips unreadable entries. |
| ClaudeResolver.NoMarkerFound | claude/arxiv_to_epub.py:108-117 | With no readable entry holding the marker, the scan finds nothing. |
| ClaudeResolver.FirstTexFallback | claude/arxiv_to_epub.py:119-123 | With no conventional name and no marker, the first globbed file is chosen. |
| ClaudeResolver.SubdirectoriesIgnored | claude/arxiv_to_epub.py:97-125 | Entries below the top level change neither the choice nor the error. |
| ClaudeResolver.CommonNamesAreTex | claude/arxiv_to_epub.py:100 | Every conventional name ends in `.tex`. |
| ChatgptResolver.CollectTexFiles | chatgpt/arxiv_to_epub.py:52-56 | The nested walk loops build exactly the candidate list, in walk order. |
| ChatgptResolver.Candidates | chatgpt/arxiv_to_epub.py:52-56 | A path is a candidate iff it joins some walked directory with one of its file names that ends in `.tex` after lower-casing. |
| ChatgptResolver.StepCandidates | chatgpt/arxiv_to_epub.py:54-56 | One directory contributes exactly its `.tex` names, each joined with the directory, and no more paths than it has files. |
| ChatgptResolver.StepCandidatesAppend | chatgpt/arxiv_to_epub.py:54-56 | A directory's candidates keep the order of its file names. |
| ChatgptResolver.CandidatesAppend | chatgpt/arxiv_to_epub.py:52-56 | The candidates keep the walk's order: the files of earlier directories come before those of later ones. |
| ChatgptResolver.TexFileOfLast | chatgpt/arxiv_to_epub.py:52-56 | A `.tex` file of a walk is one of its earlier steps or one of its last step. |
| ChatgptResolver.BasenameJoin | chatgpt/arxiv_to_epub.py:56 | The basename of a joined path is the file name the walk gave. |
| ChatgptResolver.MaxBySize | chatgpt/arxiv_to_epub.py:69-70 | `max` by size picks a largest path, and no earlier path is as large. |
| ChatgptResolver.SelectMainTex | chatgpt/arxiv_to_epub.py:58-70 | In the source's order: no candidates gives an error. A non-empty hint gives the first exact basename match, or an error with no fallback. One candidate gives that candidate. Otherwise the first largest is chosen. Any result is a candidate. |
| ChatgptResolver.FindMainTex | chatgpt/arxiv_to_epub.py:51-70 | The same cases, stated over the `.tex` files of the walk. |
| Sanitizer.SanitizePlain | claude/arxiv_to_epub.py:140-157 | Text without a backslash passes the whole rewrite unchanged. |
| Sanitizer.Sanitize | claude/arxiv_to_epub.py:140-157 | Text without `}` passes the whole rewrite unchanged. |
| Sanitizer.UnclosedKeptByAll | claude/arxiv_to_epub.py:143-157 | The citation rule and every table entry keep text without `}`, and so does the table as a whole. |
| Sanitizer.NoCloseKept | claude/arxiv_to_epub.py:143-153 | Text without `}` passes one rule unchanged, as every pattern ends with `\}`. |
| Sanitizer.MatchNeedsClose | claude/arxiv_to_epub.py:143-153 | A pattern matches only text that holds a `}`. |
| Sanitizer.PlainUnchanged | claude/arxiv_to_epub.py:143 | Text without a backslash passes one rule unchanged. |
| Sanitizer.PlainUnchangedAll | claude/arxiv_to_epub.py:156-157 | Text without a backslash passes any list of rules unchanged. |
| Sanitizer.PlainPrefix | claude/arxiv_to_epub.py:157 | A backslash-free prefix is copied as is, and the scan resumes after it. |
| Sanitizer.BracedMatch | claude/arxiv_to_epub.py:148 | `\cmd{arg}` matches whole at the start, ARG ending at the first `}`. |
| Sanitizer.BracedRewrite | claude/arxiv_to_epub.py:148 | A braced command is replaced by its output, and the scan resumes right after it without revisiting. |
| Sanitizer.RuleAlone | claude/arxiv_to_epub.py:148 | A rule's own command on its own becomes that rule's output. |
| Sanitizer.GraphicsMatch | claude/arxiv_to_epub.py:147 | `\includegraphics{file}` matches whole. |
| Sanitizer.GraphicsRewrite | claude/arxiv_to_epub.py:147 | `\includegraphics{file}` becomes `[Image: file]` and the scan continues. |
| Sanitizer.GraphicsOptionsMatch | claude/arxiv_to_epub.py:147 | `\includegraphics[opts]{file}` matches whole, OPTS ending at the first `]`. |
| Sanitizer.GraphicsOptionsRewrite | claude/arxiv_to_epub.py:147 | `\includegraphics[opts]{file}` becomes `[Image: file]`, and the options are dropped. |
| Sanitizer.NoBraceAfterCommand | claude/arxiv_to_epub.py:151 | The brace must follow the command name at once, so `\include` does not match `\includegraphics{f}`. |
| Sanitizer.KeptExtended | claude/arxiv_to_epub.py:152-153 | A longer command that extends a rule's command is not matched by that rule, in any backslash-free context. |
| Sanitizer.KeptInContext | claude/arxiv_to_epub.py:157 | A text with one leading backslash where the pattern fails is kept, with the backslash-free text around it. |
| Sanitizer.FiresInContext | claude/arxiv_to_epub.py:143-157 | A rule's own command between backslash-free texts is replaced by the rule's output, and the texts around it are kept. |
| Sanitizer.KeptDiffering | claude/arxiv_to_epub.py:143-153 | A command that differs from a rule's command within the rule's length is kept in a backslash-free context. |
| Sanitizer.KeptByOther | claude/arxiv_to_epub.py:143-153 | A command whose first letter differs from a rule's is kept by that rule in a backslash-free context. |
| Sanitizer.KeptByEarlier | claude/arxiv_to_epub.py:146-153 | The entries before the k-th keep a command whose first letter differs from all of theirs. |
| Sanitizer.IncludeKeptByGraphics | claude/arxiv_to_epub.py:147 | The graphics rule does not take `\include{f}`, whose `{` stands where `graphics` would go on. |
| Sanitizer.IncludeKeptByInput | claude/arxiv_to_epub.py:150 | The input rule does not take `\include{f}`. |
| Sanitizer.StyleKeptByBibliography | claude/arxiv_to_epub.py:152-153 | The bibliography rule keeps `\bibliographystyle{s}`. |
| Sanitizer.UnclosedKept | claude/arxiv_to_epub.py:148 | A command whose brace is never closed is not matched and is kept. |
| Sanitizer.DiffersAt | claude/arxiv_to_epub.py:148 | A text that differs from `\cmd` within its length does not match. |
| Sanitizer.KeptWithoutMatch | claude/arxiv_to_epub.py:157 | A text whose only backslash is at its start, where the pattern fails, is kept. |
| Sanitizer.NoMatchThen | claude/arxiv_to_epub.py:157 | A failed match at a backslash copies it, and the scan goes on. |
| Sanitizer.ApplyRulesAppend | claude/arxiv_to_epub.py:156-157 | Running a table in two parts equals running it whole. |
| Sanitizer.OneRuleFires | claude/arxiv_to_epub.py:156-157 | If only the k-th rule changes the text and later rules keep its output, the table yields that output. |
| Sanitizer.TableFires | claude/arxiv_to_epub.py:143-157 | The same for the whole rewrite: if the citation rule and the earlier entries keep the text and the later entries keep the k-th entry's output, the rewrite yields that output. |
| Sanitizer.SanitizeLone | claude/arxiv_to_epub.py:143-157 | A table command on its own, with any argument without `}`, that the citation rule and every earlier entry keep, becomes that entry's output. |
| Sanitizer.SanitizeEntry | claude/arxiv_to_epub.py:143-157 | In a backslash-free context, a table command that the citation rule and the earlier entries keep becomes that entry's output, and the context is unchanged. |
| Sanitizer.SanitizeGraphics | claude/arxiv_to_epub.py:147 | In any backslash-free context, the rewrite turns `\includegraphics{f}` into `[Image: f]` and keeps the context. |
| Sanitizer.SanitizeGraphicsOptions | claude/arxiv_to_epub.py:147 | In any backslash-free context, the rewrite turns `\includegraphics[o]{f}` into `[Image: f]` for options without `{` or `]` and a file name without `}` or a backslash; the options are dropped. |
| Sanitizer.GraphicsOptionsInContext | claude/arxiv_to_epub.py:147 | The graphics rule replaces `\includegraphics[o]{f}` by `[Image: f]` in a backslash-free context. |
| Sanitizer.CiteKeepsOptions | claude/arxiv_to_epub.py:143 | The citation rule keeps `\includegraphics[o]{f}` when the options hold no `{`. |
| Sanitizer.OptionsKeptByBraced | claude/arxiv_to_epub.py:143-153 | A braced rule whose command has no `{` or `]` keeps a command with options free of `{`, in a backslash-free context. |
| Sanitizer.SanitizeRef | claude/arxiv_to_epub.py:148 | In any backslash-free context, the rewrite turns `\ref{x}` into `[ref]` and keeps the context. |
| Sanitizer.SanitizeLabel | claude/arxiv_to_epub.py:149 | In any backslash-free context, the rewrite deletes `\label{x}` and keeps the context. |
| Sanitizer.SanitizeInput | claude/arxiv_to_epub.py:150 | In any backslash-free context, the rewrite turns `\input{f}` into `% Input file: f` and keeps the context. |
| Sanitizer.SanitizeInclude | claude/arxiv_to_epub.py:151 | In any backslash-free context, the rewrite turns `\include{f}` into `% Include file: f` and keeps the context. |
| Sanitizer.SanitizeBibliography | claude/arxiv_to_epub.py:152 | In any backslash-free context, the rewrite turns `\bibliography{f}` into `% Bibliography: f` and keeps the context. |
| Sanitizer.SanitizeBibliographyStyle | claude/arxiv_to_epub.py:153 | In any backslash-free context, the rewrite deletes `\bibliographystyle{s}`. The bibliography rule runs first and does not take it. |
| Sanitizer.CiteDropsKey | claude/arxiv_to_epub.py:143 | As written, `\cite{key}` becomes the literal `[\1]` in any backslash-free context, for any key without `}`, both for the rule alone and for the whole rewrite. The key is lost. |
| Sanitizer.CiteOutputKept | claude/arxiv_to_epub.py:146-157 | The table keeps the citation output `[\1]` in any backslash-free context. |
| Sanitizer.IntendedCiteKeepsKey | claude/arxiv_to_epub.py:143 | With the intended replacement, `\cite{key}` becomes `[key]` for any key without `}`. |
| Sanitizer.IntendedCiteInContext | claude/arxiv_to_epub.py:143 | With the intended replacement, `\cite{key}` becomes `[key]` in any backslash-free context. |
| Sanitizer.CitepKept | claude/arxiv_to_epub.py:143 | `\citep{key}` is not a citation for the rule and passes the whole rewrite unchanged, in any backslash-free context. |
| Sanitizer.SanitizeNotIdempotent | claude/arxiv_to_epub.py:146-157 | Deleting a label joins `\re` and `f{k}` into `\ref{k}`, which a second run turns into `[ref]`. The rewrite is not idempotent. |
| Sanitizer.DeletionJoins | claude/arxiv_to_epub.py:149 | A deleting rule joins the text before a match to the text after it. |
| Preprocess.PreprocessTexFile | claude/arxiv_to_epub.py:127-169 | The error escapes, with nothing changed, iff the backup path is invalid, the file is missing or the backup copy fails. On success the backup holds the original and the file holds the rewrite of the text a text-mode read returns, with `\n` line breaks (`True`). If reading or writing fails, the file is restored and the backup kept (`False`). |
| Preprocess.Rewrite | claude/arxiv_to_epub.py:143-157 | The loop of substitutions, the citation rule and then each table entry in order, computes the whole rewrite `Sanitize`. |
| Preprocess.ReadText | claude/arxiv_to_epub.py:136-137 | A text-mode read leaves no `\r`: every `\r\n` and lone `\r` becomes `\n`, a file without `\r` reads as stored, and only an empty file reads as empty. |
| Preprocess.ToCrlf | claude/arxiv_to_epub.py:136-137 | A file saved with Windows line breaks stores each `\n` as `\r\n`: it is never shorter than the text, longer when the text has a line break, and the text itself when it has none. |
| Preprocess.ReadTextOfCrlf | claude/arxiv_to_epub.py:136-137 | A text-mode read of a file saved with Windows line breaks gives back the text with `\n` line breaks. |
| Preprocess.ToCr | claude/arxiv_to_epub.py:136-137 | A file saved with classic Mac OS line breaks stores each `\n` as `\r`: same length, no `\n` left, and the text itself when it has no line break. |
| Preprocess.ReadTextOfCr | claude/arxiv_to_epub.py:136-137 | A text-mode read turns each lone `\r` into `\n`: a file saved with `\r` line breaks reads as the text with `\n` line breaks. |
| Preprocess.CrlfFileRewritten | claude/arxiv_to_epub.py:136-165 | A file with `\r\n` line breaks and no command in it is still changed on disk: it is written back with `\n` line breaks, while the backup keeps the `\r`. |
| Preprocess.WithSuffix | claude/arxiv_to_epub.py:132 | The error case occurs iff the file name is empty. When the name's last dot is neither its first nor its last character, the text from that dot on is replaced by the new suffix; otherwise the suffix is appended. The result keeps the directory part and a non-empty stem. |
| Preprocess.SuffixLengthSpec | claude/arxiv_to_epub.py:132 | The suffix `with_suffix` replaces runs from the name's last dot when that dot is neither the first nor the last character, and is empty otherwise. |
| Preprocess.BackupPath | claude/arxiv_to_epub.py:132 | The backup path exists iff the file name is non-empty; it ends in `.tex.bak` and is never the file itself. |
| Preprocess.TexFileBackup | claude/arxiv_to_epub.py:132 | `x.tex` is backed up as `x.tex.bak`. |
| Preprocess.ExtensionSuffix | claude/arxiv_to_epub.py:132 | The suffix `with_suffix` replaces in a name ending in a four-character extension such as `.tex` or `.bak` is that extension. |
| Preprocess.BackupIsAnotherFile | claude/arxiv_to_epub.py:132-133 | The backup path never equals the file's own path. |
| Preprocess.BackupNameDiffers | claude/arxiv_to_epub.py:132-133 | Putting `.tex.bak` in place of a name's suffix never gives back the path itself. |
| Preprocess.TexStore.constructor | claude/arxiv_to_epub.py:127 | The store starts with the given files. |

## Left out

- `urlparse` is the parameter `pathOf`. Its own `ValueError` for a malformed network location is not modelled.
- `IsDigit` follows ASCII `0`-`9`. Python's `\d` on `str` also accepts the other Unicode decimal digits.
- `IsTexName` lower-cases ASCII letters only. Python's `str.lower` also folds non-ASCII letters.
- Directory traversal order is given as input, not derived. The entries that `Path.glob` and `os.walk` yield are lists in the caller's order, and `Path.exists` is answered from the same entry list.
- File contents read with `errors='ignore'` are given as already-decoded text. A file that cannot be opened (a directory, or unreadable) has no content.
- `os.path.getsize` is the parameter `sizeOf`.
- `ChatgptResolver.Join` covers relative file names, which is what `os.walk` yields. The rule of `os.path.join` for an absolute second part is not modelled.
- `Preprocess.WithSuffix` takes paths in normal form: no trailing `/`, POSIX separators. It does not check the suffix argument, which is the constant `.tex.bak` here.
- `Preprocess.PreprocessTexFile` assumes that restoring the backup succeeds. If `shutil.copy2` raises inside the `except` block, that second exception is not modelled. A backup copy that fails part way is also left out.
- `copy2` copies file metadata, which is not modelled; the store holds only text. Character encodings are not modelled either.
- `Preprocess.PreprocessTexFile`: the store holds each file's characters after UTF-8 decoding. The bytes that `errors='ignore'` drops are not shown, and the write is taken to use `\n` line breaks, as on POSIX systems; on Windows the text-mode write would turn each `\n` into `\r\n`.
- Logging, HTTP download, archive extraction, cover creation, pandoc and ImageMagick calls, `process_paper`, `main` and the CLI are not part of this model.
- `Sanitizer.SanitizeGraphics`, `Sanitizer.SanitizeGraphicsOptions`, `Sanitizer.SanitizeRef`, `Sanitizer.SanitizeLabel`, `Sanitizer.SanitizeInput`, `Sanitizer.SanitizeInclude`, `Sanitizer.SanitizeBibliography`, `Sanitizer.SanitizeBibliographyStyle`, `Sanitizer.SanitizeEntry`, `Sanitizer.IntendedCiteInContext` and `Sanitizer.CitepKept`: these statements take an argument and a context without a backslash. With a backslash in the argument, a rule that runs earlier can rewrite inside it, the citation rule first: `\input{\ref{x}` becomes `\input{[ref]`, and `\includegraphics{\cite{x}` becomes `\includegraphics{[\1]`, which the later rule then no longer matches. A later rule can also match across the copied argument and the text after it: `\input{\include{y}}` becomes `% Input file: % Include file: y`.
- `Sanitizer.SanitizeGraphicsOptions`: options that hold `{` are not covered. A citation inside them, such as `\includegraphics[\cite{a}]{f}`, is rewritten by the citation rule before the graphics rule runs.
- Every listed entry is treated as a file that exists, and `sizeOf` as defined for every candidate. A dangling symbolic link is where this differs: `Path.exists()` is false for it while `glob` still lists it (claude/arxiv_to_epub.py:104, 109), and `os.path.getsize` raises on it (chatgpt/arxiv_to_epub.py:70).

## Findings

| source | as written | input that shows it | evidently intended | confidence | as-written member | corrected member |
|---|---|---|---|---|---|---|
| claude/arxiv_to_epub.py:143 | the replacement `r'[\\1]'` is an escaped backslash and a `1`, so every citation becomes the literal `[\1]` | `\cite{foo}` gives `[\1]` | the key kept in brackets, `[foo]` (replacement `r'[\1]'`) | high; not executed | Sanitizer.CiteDropsKey | Sanitizer.IntendedCiteKeepsKey |

`PreprocessTexFile` keeps the citation rule as written, because that is what
the script does. `Sanitizer.IntendedSanitize` is the whole rewrite with the
corrected rule.
