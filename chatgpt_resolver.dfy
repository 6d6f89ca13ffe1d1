/** Entry-file resolution of the "chatgpt" converter (`find_main_tex`): every
    `.tex` file at any depth is a candidate; a hint picks by exact basename,
    otherwise a lone candidate or the largest one is chosen. */
module ChatgptResolver {
  import opened Wrappers
  import opened Text

  /** One step of `os.walk`: a directory path and the names of the files in it,
      in the order the walk yields them. */
  datatype WalkStep = WalkStep(root: string, files: seq<string>)

  datatype Error = NoTexFiles | MainFileNotFound(name: string)

  /** `fname.lower().endswith('.tex')`. */
  predicate IsTexName(name: string) {
    EndsWith(Lower(name), ".tex")
  }

  /** `os.path.join(root, name)` for a relative `name`. */
  function Join(root: string, name: string): string {
    if root == [] || root[|root| - 1] == '/' then root + name else root + "/" + name
  }

  lemma {:induction false} TailLengthAfterSlash(prefix: string, name: string)
    requires '/' !in name && (prefix == [] || prefix[|prefix| - 1] == '/')
    ensures TailLength(prefix + name) == |name|
    decreases |name|
  {
    if name == [] {
      assert prefix + name == prefix;
    } else {
      var q := prefix + name;
      var n' := name[..|name| - 1];
      assert q[..|q| - 1] == prefix + n';
      assert q[|q| - 1] == name[|name| - 1];
      assert '/' !in n' by {
        assert forall c :: c in n' ==> c in name;
      }
      TailLengthAfterSlash(prefix, n');
    }
  }

  /** The basename of a joined path is the file name the walk gave. */
  lemma BasenameJoin(root: string, name: string)
    requires '/' !in name
    ensures Basename(Join(root, name)) == name
  {
    var prefix := if root == [] || root[|root| - 1] == '/' then root else root + "/";
    assert Join(root, name) == prefix + name;
    TailLengthAfterSlash(prefix, name);
  }

  /** The `.tex` paths one walk step contributes, in file order: the directory
      joined with each of its file names that ends in `.tex` after
      lower-casing. */
  function StepCandidates(root: string, files: seq<string>): (c: seq<string>)
    ensures |c| <= |files|
    ensures forall path :: path in c <==> exists f :: f in files && IsTexName(f) && path == Join(root, f)
  {
    if files == [] then []
    else
      var init := files[..|files| - 1];
      var last := files[|files| - 1];
      assert files == init + [last];
      StepCandidates(root, init) + (if IsTexName(last) then [Join(root, last)] else [])
  }

  /** One step's candidates keep the order of its file names. */
  lemma {:induction false} StepCandidatesAppend(root: string, a: seq<string>, b: seq<string>)
    ensures StepCandidates(root, a + b) == StepCandidates(root, a) + StepCandidates(root, b)
    decreases |b|
  {
    if b == [] {
      assert a + b == a;
    } else {
      var b' := b[..|b| - 1];
      assert (a + b)[..|a + b| - 1] == a + b';
      assert (a + b)[|a + b| - 1] == b[|b| - 1];
      StepCandidatesAppend(root, a, b');
    }
  }

  /** A `.tex` file some step lists, joined with that step's root. */
  ghost predicate TexFileOf(walk: seq<WalkStep>, path: string) {
    exists i, f :: 0 <= i < |walk| && f in walk[i].files && IsTexName(f) && path == Join(walk[i].root, f)
  }

  /** A `.tex` file of a walk comes from its earlier steps or from the last. */
  lemma TexFileOfLast(walk: seq<WalkStep>, path: string)
    requires walk != []
    ensures TexFileOf(walk, path) <==>
      TexFileOf(walk[..|walk| - 1], path)
      || exists f :: f in walk[|walk| - 1].files && IsTexName(f) && path == Join(walk[|walk| - 1].root, f)
  {
    var init := walk[..|walk| - 1];
    if TexFileOf(walk, path) {
      var i, f :| 0 <= i < |walk| && f in walk[i].files && IsTexName(f) && path == Join(walk[i].root, f);
      if i < |walk| - 1 {
        assert init[i] == walk[i];
      }
    }
    if TexFileOf(init, path) {
      var i, f :| 0 <= i < |init| && f in init[i].files && IsTexName(f) && path == Join(init[i].root, f);
      assert walk[i] == init[i];
    }
  }

  /** `tex_files` after the whole walk: exactly the `.tex` files
      (case-insensitive) at any depth. */
  function Candidates(walk: seq<WalkStep>): (c: seq<string>)
    ensures forall path :: path in c <==> TexFileOf(walk, path)
  {
    if walk == [] then []
    else
      var last := walk[|walk| - 1];
      assert forall path :: TexFileOf(walk, path) <==>
        TexFileOf(walk[..|walk| - 1], path)
        || exists f :: f in last.files && IsTexName(f) && path == Join(last.root, f)
      by {
        forall path {
          TexFileOfLast(walk, path);
        }
      }
      Candidates(walk[..|walk| - 1]) + StepCandidates(last.root, last.files)
  }

  /** The candidates keep the walk's order: the files of earlier steps come
      before those of later steps. */
  lemma {:induction false} CandidatesAppend(w: seq<WalkStep>, v: seq<WalkStep>)
    ensures Candidates(w + v) == Candidates(w) + Candidates(v)
    decreases |v|
  {
    if v == [] {
      assert w + v == w;
    } else {
      var v' := v[..|v| - 1];
      var last := v[|v| - 1];
      assert (w + v)[..|w + v| - 1] == w + v';
      assert (w + v)[|w + v| - 1] == last;
      assert Candidates(w + v) == Candidates(w + v') + StepCandidates(last.root, last.files);
      assert Candidates(v) == Candidates(v') + StepCandidates(last.root, last.files);
      CandidatesAppend(w, v');
    }
  }

  /** `if main_name:` — an absent or empty hint means no hint. */
  predicate Hinted(mainName: Option<string>) {
    mainName.Some? && mainName.value != ""
  }

  /** `c[k]` is the first path whose basename is `name`. */
  predicate FirstNamed(c: seq<string>, name: string, k: nat) {
    k < |c| && Basename(c[k]) == name && forall j :: 0 <= j < k ==> Basename(c[j]) != name
  }

  /** `c[k]` has maximal size and no earlier path is as large. */
  predicate FirstLargest(c: seq<string>, sizeOf: string -> nat, k: nat) {
    && k < |c|
    && (forall j :: 0 <= j < |c| ==> sizeOf(c[j]) <= sizeOf(c[k]))
    && (forall j :: 0 <= j < k ==> sizeOf(c[j]) < sizeOf(c[k]))
  }

  /** `max(c, key=sizeOf)`: scans left to right and replaces the current best
      only by a strictly larger one. */
  function MaxBySize(c: seq<string>, sizeOf: string -> nat): (k: nat)
    requires c != []
    ensures FirstLargest(c, sizeOf, k)
  {
    if |c| == 1 then 0
    else
      var init := c[..|c| - 1];
      var k := MaxBySize(init, sizeOf);
      assert forall j :: 0 <= j < |c| - 1 ==> c[j] == init[j];
      if sizeOf(c[|c| - 1]) > sizeOf(c[k]) then |c| - 1 else k
  }

  /** The nested loops over `os.walk` that build `tex_files`. */
  method CollectTexFiles(walk: seq<WalkStep>) returns (texFiles: seq<string>)
    ensures texFiles == Candidates(walk)
  {
    texFiles := [];
    var i := 0;
    while i < |walk|
      invariant i <= |walk|
      invariant texFiles == Candidates(walk[..i])
    {
      var step := walk[i];
      var j := 0;
      while j < |step.files|
        invariant j <= |step.files|
        invariant texFiles == Candidates(walk[..i]) + StepCandidates(step.root, step.files[..j])
      {
        var fname := step.files[j];
        if IsTexName(fname) {
          texFiles := texFiles + [Join(step.root, fname)];
        }
        assert step.files[..j + 1][..j] == step.files[..j];
        j := j + 1;
      }
      assert step.files[..j] == step.files;
      assert walk[..i + 1][..i] == walk[..i];
      i := i + 1;
    }
    assert walk[..i] == walk;
  }

  /** The choice among the collected candidates `c`. */
  method SelectMainTex(c: seq<string>, mainName: Option<string>, sizeOf: string -> nat)
    returns (r: Result<string, Error>)
    ensures c == [] ==> r == Err(NoTexFiles)
    ensures c != [] && Hinted(mainName) ==>
      (forall k: nat :: FirstNamed(c, mainName.value, k) ==> r == Ok(c[k]))
      && ((forall j :: 0 <= j < |c| ==> Basename(c[j]) != mainName.value)
          ==> r == Err(MainFileNotFound(mainName.value)))
    ensures c != [] && !Hinted(mainName) && |c| == 1 ==> r == Ok(c[0])
    ensures c != [] && !Hinted(mainName) && |c| > 1 ==>
      exists k: nat :: FirstLargest(c, sizeOf, k) && r == Ok(c[k])
    ensures r.Ok? ==> r.value in c
  {
    if c == [] {
      return Err(NoTexFiles);
    }
    if Hinted(mainName) {
      var k := 0;
      while k < |c|
        invariant k <= |c|
        invariant forall j :: 0 <= j < k ==> Basename(c[j]) != mainName.value
      {
        if Basename(c[k]) == mainName.value {
          assert FirstNamed(c, mainName.value, k);
          return Ok(c[k]);
        }
        k := k + 1;
      }
      return Err(MainFileNotFound(mainName.value));
    }
    if |c| == 1 {
      return Ok(c[0]);
    }
    var k := MaxBySize(c, sizeOf);
    return Ok(c[k]);
  }

  /** `find_main_tex(extract_dir, main_name)`, with `os.walk(extract_dir)` given
      as `walk` and `os.path.getsize` as `sizeOf`. */
  method FindMainTex(walk: seq<WalkStep>, mainName: Option<string>, sizeOf: string -> nat)
    returns (r: Result<string, Error>)
    ensures Candidates(walk) == [] ==> r == Err(NoTexFiles)
    ensures Candidates(walk) != [] && Hinted(mainName) ==>
      (forall k: nat :: FirstNamed(Candidates(walk), mainName.value, k) ==> r == Ok(Candidates(walk)[k]))
      && ((forall j :: 0 <= j < |Candidates(walk)| ==> Basename(Candidates(walk)[j]) != mainName.value)
          ==> r == Err(MainFileNotFound(mainName.value)))
    ensures Candidates(walk) != [] && !Hinted(mainName) && |Candidates(walk)| == 1 ==>
      r == Ok(Candidates(walk)[0])
    ensures Candidates(walk) != [] && !Hinted(mainName) && |Candidates(walk)| > 1 ==>
      exists k: nat :: FirstLargest(Candidates(walk), sizeOf, k) && r == Ok(Candidates(walk)[k])
    ensures r.Ok? ==> r.value in Candidates(walk)
  {
    var texFiles := CollectTexFiles(walk);
    r := SelectMainTex(texFiles, mainName, sizeOf);
  }
}
