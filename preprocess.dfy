/** `preprocess_tex_file`: the TeX file is copied to a backup, its text is run
    through the rewrite table, and the result is written back; if reading or
    writing fails, the file is restored from the backup. The file system is a
    map from path to text, and the points where the real calls may fail are
    given as a `Faults` value. */
module Preprocess {
  import opened Wrappers
  import opened Text
  import opened Sanitizer

  /** `s[i]` is a `.` and no `.` follows it. */
  predicate LastDotAt(s: string, i: nat) {
    i < |s| && s[i] == '.' && forall k | i < k < |s| :: s[k] != '.'
  }

  /** Index of the last `.` in `s`. */
  function LastDot(s: string): (r: Option<nat>)
    ensures r.Some? ==> LastDotAt(s, r.value)
    ensures r.None? ==> forall k | 0 <= k < |s| :: s[k] != '.'
    decreases |s|
  {
    if s == [] then None
    else if s[|s| - 1] == '.' then Some(|s| - 1)
    else LastDot(s[..|s| - 1])
  }

  /** Length of `PurePath.suffix` for a file name: it runs from the last `.`,
      provided that dot is neither the first nor the last character. */
  function SuffixLength(name: string): (n: nat)
    ensures n <= |name|
  {
    match LastDot(name)
    case Some(i) => if 0 < i < |name| - 1 then |name| - i else 0
    case None => 0
  }

  /** The suffix of a name runs from its last dot when that dot is neither
      its first nor its last character, and is empty otherwise. */
  lemma SuffixLengthSpec(name: string)
    ensures forall i | 0 < i < |name| - 1 && LastDotAt(name, i) :: SuffixLength(name) == |name| - i
    ensures (forall i | 0 < i < |name| - 1 :: !LastDotAt(name, i)) ==> SuffixLength(name) == 0
  {
  }

  /** `PurePath(path).with_suffix(suffix)`: the suffix of the last component is
      replaced (or `suffix` appended when there is none); `None` stands for the
      `ValueError` raised for an empty name. Paths are taken in normal form
      (no trailing `/`). */
  function WithSuffix(path: string, suffix: string): (r: Option<string>)
    ensures r.None? <==> Basename(path) == []
    ensures r.Some? ==> EndsWith(r.value, suffix)
    ensures r.Some? ==> var dir := |path| - TailLength(path);
      dir < |r.value| - |suffix| && r.value[..dir] == path[..dir]
    ensures '.' !in Basename(path) && Basename(path) != [] ==> r == Some(path + suffix)
    ensures var name := Basename(path);
      forall i | 0 < i < |name| - 1 && LastDotAt(name, i) :: r == Some(path[..|path| - (|name| - i)] + suffix)
    ensures var name := Basename(path);
      name != [] && (forall i | 0 < i < |name| - 1 :: !LastDotAt(name, i)) ==> r == Some(path + suffix)
  {
    var name := Basename(path);
    if name == [] then None
    else
      SuffixLengthSpec(name);
      var n := SuffixLength(name);
      assert n == 0 ==> path[..|path| - n] == path;
      Some(path[..|path| - n] + suffix)
  }

  /** `tex_file.with_suffix('.tex.bak')`: a file of the same directory whose
      name ends in `.tex.bak`, and never the file itself. */
  function BackupPath(path: string): (r: Option<string>)
    ensures r.None? <==> Basename(path) == []
    ensures r.Some? ==> EndsWith(r.value, ".tex.bak") && r.value != path
  {
    if WithSuffix(path, ".tex.bak").Some? then
      BackupIsAnotherFile(path);
      WithSuffix(path, ".tex.bak")
    else None
  }

  /** A `.` followed by text without a dot is the last dot. */
  lemma {:induction false} LastDotBefore(s: string, t: string)
    requires s != [] && s[|s| - 1] == '.' && '.' !in t
    ensures LastDot(s + t) == Some(|s| - 1)
    decreases |t|
  {
    if t == [] {
      assert s + t == s;
    } else {
      var t' := t[..|t| - 1];
      assert (s + t)[..|s + t| - 1] == s + t';
      assert (s + t)[|s + t| - 1] == t[|t| - 1];
      assert '.' !in t' by {
        assert forall c :: c in t' ==> c in t;
      }
      LastDotBefore(s, t');
    }
  }

  /** A name ending in `.xyz` (three characters without a dot) before which
      something stands has a suffix of length four. */
  lemma SuffixOfFour(name: string)
    requires |name| > 4 && name[|name| - 4] == '.' && '.' !in name[|name| - 3..]
    ensures SuffixLength(name) == 4
  {
    var s := name[..|name| - 3];
    assert name == s + name[|name| - 3..];
    LastDotBefore(s, name[|name| - 3..]);
  }

  /** The file name is a suffix of the path. */
  lemma BasenameEnds(path: string, x: string)
    requires EndsWith(path, x) && |x| <= TailLength(path)
    ensures EndsWith(Basename(path), x)
  {
    var name := Basename(path);
    assert name[|name| - |x|..] == path[|path| - |x|..];
  }

  /** The file name of a path ending in a four-character extension such as
      `.tex` or `.bak` has that extension as its suffix. */
  lemma ExtensionSuffix(path: string, ext: string)
    requires |ext| == 4 && ext[0] == '.' && '.' !in ext[1..]
    requires EndsWith(path, ext) && TailLength(path) > 4
    ensures SuffixLength(Basename(path)) == 4
  {
    var name := Basename(path);
    BasenameEnds(path, ext);
    assert name[|name| - 4..] == ext;
    assert name[|name| - 3..] == ext[1..];
    SuffixOfFour(name);
  }

  /** Replacing the `.tex` ending of a path by `.tex.bak` appends `.bak`. */
  lemma TexEndingReplaced(path: string)
    requires EndsWith(path, ".tex")
    ensures path[..|path| - 4] + ".tex.bak" == path + ".bak"
  {
    assert path == path[..|path| - 4] + ".tex";
  }

  /** `main.tex` is backed up as `main.tex.bak`. */
  lemma TexFileBackup(path: string)
    requires EndsWith(path, ".tex") && TailLength(path) > 4
    ensures BackupPath(path) == Some(path + ".bak")
  {
    ExtensionSuffix(path, ".tex");
    TexEndingReplaced(path);
  }

  /** Putting `.tex.bak` in place of a name's suffix never gives back the
      path itself. */
  lemma BackupNameDiffers(path: string)
    requires Basename(path) != []
    ensures path[..|path| - SuffixLength(Basename(path))] + ".tex.bak" != path
  {
    var n := SuffixLength(Basename(path));
    var b := path[..|path| - n] + ".tex.bak";
    if b == path {
      assert n == 8;
      assert EndsWith(path, ".bak") by {
        assert path[|path| - 4..] == b[|b| - 4..];
      }
      ExtensionSuffix(path, ".bak");
      assert false;
    }
  }

  /** The backup is never the file itself, so making it does not touch the
      file. */
  lemma BackupIsAnotherFile(path: string)
    requires WithSuffix(path, ".tex.bak").Some?
    ensures WithSuffix(path, ".tex.bak").value != path
  {
    BackupNameDiffers(path);
  }

  /** The text a text-mode `open(...).read()` returns for a file's stored
      characters: universal newlines turn every `\r\n` and every lone `\r`
      into `\n`. */
  function ReadText(raw: string): (r: string)
    ensures '\r' !in r
    ensures '\r' !in raw ==> r == raw
    ensures |r| <= |raw|
    ensures |r| == 0 <==> |raw| == 0
    decreases |raw|
  {
    if raw == [] then []
    else if raw[0] == '\r' then
      if |raw| > 1 && raw[1] == '\n' then "\n" + ReadText(raw[2..])
      else "\n" + ReadText(raw[1..])
    else [raw[0]] + ReadText(raw[1..])
  }

  /** The text of a file saved with Windows line breaks: every `\n` of `s`
      stored as `\r\n`. */
  function ToCrlf(s: string): (r: string)
    ensures |r| >= |s|
    ensures '\n' in s ==> |r| > |s|
    ensures '\n' !in s ==> r == s
    decreases |s|
  {
    if s == [] then []
    else (if s[0] == '\n' then "\r\n" else [s[0]]) + ToCrlf(s[1..])
  }

  /** Reading a file saved with Windows line breaks gives back the text with
      `\n` line breaks. */
  lemma {:induction false} ReadTextOfCrlf(s: string)
    requires '\r' !in s
    ensures ReadText(ToCrlf(s)) == s
    decreases |s|
  {
    if s != [] {
      var raw := ToCrlf(s);
      ReadTextOfCrlf(s[1..]);
      if s[0] == '\n' {
        assert raw == "\r\n" + ToCrlf(s[1..]);
        assert raw[2..] == ToCrlf(s[1..]);
      } else {
        assert raw == [s[0]] + ToCrlf(s[1..]);
        assert raw[1..] == ToCrlf(s[1..]);
      }
      assert s == [s[0]] + s[1..];
    }
  }

  /** The text of a file saved with classic Mac OS line breaks: every `\n`
      of `s` stored as `\r`. */
  function ToCr(s: string): (r: string)
    ensures |r| == |s|
    ensures '\n' !in r
    ensures '\n' !in s ==> r == s
    decreases |s|
  {
    if s == [] then []
    else (if s[0] == '\n' then "\r" else [s[0]]) + ToCr(s[1..])
  }

  /** Reading a file saved with `\r` line breaks gives back the text with
      `\n` line breaks: a lone `\r` reads as `\n`. */
  lemma {:induction false} ReadTextOfCr(s: string)
    requires '\r' !in s
    ensures ReadText(ToCr(s)) == s
    decreases |s|
  {
    if s != [] {
      var raw := ToCr(s);
      ReadTextOfCr(s[1..]);
      if s[0] == '\n' {
        assert raw == "\r" + ToCr(s[1..]);
        assert raw[1..] == ToCr(s[1..]);
        assert |raw| > 1 ==> raw[1] in ToCr(s[1..]);
      } else {
        assert raw == [s[0]] + ToCr(s[1..]);
        assert raw[1..] == ToCr(s[1..]);
      }
      assert s == [s[0]] + s[1..];
    }
  }

  /** A file with Windows line breaks and no command in it is still changed on
      disk: it is written back with `\n` line breaks. */
  lemma CrlfFileRewritten(s: string)
    requires '\r' !in s && '\\' !in s && '\n' in s
    ensures Sanitize(ReadText(ToCrlf(s))) == s
    ensures Sanitize(ReadText(ToCrlf(s))) != ToCrlf(s)
  {
    ReadTextOfCrlf(s);
    SanitizePlain(s);
  }

  /** The rewrite step of `preprocess_tex_file`: the citation rule, then each
      entry of the table in order, each applied to the previous result. */
  method Rewrite(content: string) returns (modified: string)
    ensures modified == Sanitize(content)
  {
    modified := ApplyRule(CiteRule, content);
    for i := 0 to |Replacements|
      invariant modified == ApplyRules(Replacements[..i], ApplyRule(CiteRule, content))
    {
      assert Replacements[..i + 1][..i] == Replacements[..i];
      modified := ApplyRule(Replacements[i], modified);
    }
    assert Replacements[..|Replacements|] == Replacements;
  }

  /** The files of the working directory, by path. */
  class TexStore {
    var files: map<string, string>

    constructor(files: map<string, string>)
      ensures this.files == files
    {
      this.files := files;
    }
  }

  /** The calls that can raise: `shutil.copy2` making the backup, reading the
      file, and writing it (which may leave `leftAfterFailedWrite` behind). */
  datatype Faults = Faults(backupFails: bool, readFails: bool, writeFails: bool, leftAfterFailedWrite: string)

  /** `True` returned, `False` returned, or the exception of the backup step
      propagated to the caller. */
  datatype Outcome = Rewritten | RolledBack | Raised

  method PreprocessTexFile(store: TexStore, path: string, faults: Faults) returns (outcome: Outcome)
    modifies store
    ensures outcome == Raised <==> BackupPath(path).None? || path !in old(store.files) || faults.backupFails
    ensures outcome == Raised ==> store.files == old(store.files)
    ensures outcome == Rewritten <==> outcome != Raised && !faults.readFails && !faults.writeFails
    ensures outcome == Rewritten ==>
      store.files == old(store.files)[BackupPath(path).value := old(store.files)[path]][path := Sanitize(ReadText(old(store.files)[path]))]
    ensures outcome == RolledBack ==>
      store.files == old(store.files)[BackupPath(path).value := old(store.files)[path]]
  {
    var backup := BackupPath(path);
    if backup.None? || path !in store.files || faults.backupFails {
      return Raised;
    }
    store.files := store.files[backup.value := store.files[path]];
    if faults.readFails {
      store.files := store.files[path := store.files[backup.value]];
      return RolledBack;
    }
    var content := ReadText(store.files[path]);
    var modified := Rewrite(content);
    if faults.writeFails {
      store.files := store.files[path := faults.leftAfterFailedWrite];
      store.files := store.files[path := store.files[backup.value]];
      return RolledBack;
    }
    store.files := store.files[path := modified];
    return Rewritten;
  }
}
