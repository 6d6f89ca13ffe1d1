/** The rewrite table of `preprocess_tex_file`: each entry is one `re.sub` over
    the whole text, and the entries run in a fixed order. Every pattern is
    `\cmd{ARG}` where ARG is `[^}]*` (so it ends at the first `}`), and
    `\includegraphics` may carry `[OPTS]` (ending at the first `]`) before the
    brace. `re.sub` scans left to right and never revisits replaced text, so
    each rule is a scanner over the remaining suffix. */
module Sanitizer {
  import opened Wrappers

  /** The replacement text: a constant, or text around the captured ARG. */
  datatype Replacement = Fixed(text: string) | Wrap(before: string, after: string)

  /** `\command{ARG}`, or `\includegraphics([OPTS])?{ARG}`. */
  datatype Rule = Braced(command: string, replacement: Replacement) | Graphics

  /** A match at the start of the text: the captured ARG and the matched length. */
  datatype Match = Match(arg: string, length: nat)

  /** `re.sub(r'\\cite\{([^}]*)\}', r'[\\1]', ...)`: the replacement template
      `[\\1]` is an escaped backslash followed by `1`, so the output is the
      four characters `[\1]`, whatever the key. */
  const CiteRule: Rule := Braced("cite", Fixed("[\\1]"))

  /** The table that runs after the citation rule, in order. */
  const Replacements: seq<Rule> := [
    Graphics,
    Braced("ref", Fixed("[ref]")),
    Braced("label", Fixed("")),
    Braced("input", Wrap("% Input file: ", "")),
    Braced("include", Wrap("% Include file: ", "")),
    Braced("bibliography", Wrap("% Bibliography: ", "")),
    Braced("bibliographystyle", Fixed(""))
  ]

  function CommandOf(rule: Rule): string {
    match rule
    case Braced(command, _) => command
    case Graphics => "includegraphics"
  }

  /** What a match of `rule` with captured `arg` is replaced by. */
  function Output(rule: Rule, arg: string): string {
    match rule
    case Braced(_, Fixed(text)) => text
    case Braced(_, Wrap(before, after)) => before + arg + after
    case Graphics => "[Image: " + arg + "]"
  }

  /** `s` starts with `p`, compared character by character. */
  predicate PrefixIs(s: string, p: string)
    decreases |p|
  {
    p == [] || (s != [] && s[0] == p[0] && PrefixIs(s[1..], p[1..]))
  }

  /** Index of the first `c` in `s` at or after `k`. */
  function FindFrom(s: string, k: nat, c: char): (r: Option<nat>)
    requires k <= |s|
    ensures r.Some? ==> k <= r.value < |s| && s[r.value] == c
    decreases |s| - k
  {
    if k == |s| then None
    else if s[k] == c then Some(k)
    else FindFrom(s, k + 1, c)
  }

  /** `\{([^}]*)\}` at index `k` of `s`: the whole match then spans `s[..length]`. */
  function BraceGroup(s: string, k: nat): (m: Option<Match>)
    ensures m.Some? ==> k < m.value.length <= |s|
  {
    if k < |s| && s[k] == '{' then
      match FindFrom(s, k + 1, '}')
      case Some(j) => Some(Match(s[k + 1..j], j + 1))
      case None => None
    else None
  }

  /** The pattern of `rule` matched at the start of `s`. */
  function MatchPrefix(rule: Rule, s: string): (m: Option<Match>)
    ensures m.Some? ==> 0 < m.value.length <= |s|
  {
    var p := "\\" + CommandOf(rule);
    var k := |p|;
    if !PrefixIs(s, p) then None
    else if rule.Graphics? && k < |s| && s[k] == '[' then OptionsGroup(s, k)
    else BraceGroup(s, k)
  }

  /** `\[[^\]]*\]\{([^}]*)\}` at index `k` of `s`: options, then the brace group. */
  function OptionsGroup(s: string, k: nat): (m: Option<Match>)
    requires k < |s|
    ensures m.Some? ==> k < m.value.length <= |s|
  {
    match FindFrom(s, k + 1, ']')
    case Some(j) => BraceGroup(s, j + 1)
    case None => None
  }

  /** A brace group holds its closing `}`. */
  lemma BraceGroupNeedsClose(s: string, k: nat)
    requires BraceGroup(s, k).Some?
    ensures '}' in s
  {
    var j := FindFrom(s, k + 1, '}').value;
    assert s[j] == '}';
  }

  /** Every pattern ends with `}`: no match without one. */
  lemma MatchNeedsClose(rule: Rule, s: string)
    requires MatchPrefix(rule, s).Some?
    ensures '}' in s
  {
    var k := |"\\" + CommandOf(rule)|;
    if rule.Graphics? && k < |s| && s[k] == '[' {
      var j := FindFrom(s, k + 1, ']').value;
      BraceGroupNeedsClose(s, j + 1);
    } else {
      BraceGroupNeedsClose(s, k);
    }
  }

  /** `re.sub(pattern, replacement, s)` for one rule. */
  function ApplyRule(rule: Rule, s: string): string
    decreases |s|
  {
    if s == [] then []
    else match MatchPrefix(rule, s)
      case Some(m) => Output(rule, m.arg) + ApplyRule(rule, s[m.length..])
      case None => [s[0]] + ApplyRule(rule, s[1..])
  }

  /** A text without `}` holds no match and passes a rule unchanged. */
  lemma {:induction false} NoCloseKept(rule: Rule, t: string)
    requires '}' !in t
    ensures ApplyRule(rule, t) == t
    decreases |t|
  {
    if t != [] {
      if MatchPrefix(rule, t).Some? {
        MatchNeedsClose(rule, t);
      }
      NotInTail(t, '}');
      NoCloseKept(rule, t[1..]);
      assert [t[0]] + t[1..] == t;
    }
  }

  /** The rules applied one after the other, first rule first. */
  function ApplyRules(rules: seq<Rule>, s: string): string {
    if rules == [] then s
    else ApplyRule(rules[|rules| - 1], ApplyRules(rules[..|rules| - 1], s))
  }

  /** The whole rewrite: the citation rule, then the table. A text without `}`
      passes it unchanged. */
  function Sanitize(s: string): (r: string)
    ensures '}' !in s ==> r == s
  {
    UnclosedKeptByAll(s);
    ApplyRules(Replacements, ApplyRule(CiteRule, s))
  }

  /** Every rule, and so the citation rule and the table, keeps text without `}`. */
  lemma UnclosedKeptByAll(t: string)
    ensures '}' !in t ==> ApplyRule(CiteRule, t) == t && KeepsAll(Replacements, t)
    ensures '}' !in t ==> ApplyRules(Replacements, t) == t
  {
    if '}' !in t {
      NoCloseKept(CiteRule, t);
      forall i | 0 <= i < |Replacements|
        ensures ApplyRule(Replacements[i], t) == t
      {
        NoCloseKept(Replacements[i], t);
      }
      KeptByAll(Replacements, t);
    }
  }

  /** No pattern matches where the text does not start with a backslash. */
  lemma NoMatchWithoutBackslash(rule: Rule, s: string)
    requires s != [] && s[0] != '\\'
    ensures MatchPrefix(rule, s) == None
  {
    assert ("\\" + CommandOf(rule))[0] == '\\';
  }

  /** A character other than a backslash is copied, and the scan moves on. */
  lemma PlainStep(rule: Rule, c: char, s: string)
    requires c != '\\'
    ensures ApplyRule(rule, [c] + s) == [c] + ApplyRule(rule, s)
  {
    var u := [c] + s;
    NoMatchWithoutBackslash(rule, u);
    assert u[1..] == s;
  }

  /** Text without a backslash passes one rule unchanged. */
  lemma {:induction false} PlainPrefix(rule: Rule, t: string, s: string)
    requires '\\' !in t
    ensures ApplyRule(rule, t + s) == t + ApplyRule(rule, s)
    decreases |t|
  {
    if t == [] {
      assert t + s == s;
    } else {
      NotInTail(t, '\\');
      PlainPrefix(rule, t[1..], s);
      PlainStep(rule, t[0], t[1..] + s);
      HeadTail(t, s);
      HeadTail(t, ApplyRule(rule, s));
    }
  }

  lemma HeadTail(t: string, x: string)
    requires t != []
    ensures t + x == [t[0]] + (t[1..] + x)
  {
    assert [t[0]] + t[1..] == t;
  }

  lemma NotInTail(t: string, c: char)
    requires t != [] && c !in t
    ensures c !in t[1..]
  {
    assert forall x :: x in t[1..] ==> x in t;
  }

  lemma Regroup(a: string, b: string, c: string)
    ensures a + b + c == a + (b + c)
  {
  }

  lemma TailOfConcat(u: string, s: string)
    requires u != []
    ensures (u + s)[1..] == u[1..] + s
  {
  }

  lemma NotInConcat(x: char, a: string, b: string)
    requires x !in a && x !in b
    ensures x !in a + b
  {
  }

  lemma PlainUnchanged(rule: Rule, t: string)
    requires '\\' !in t
    ensures ApplyRule(rule, t) == t
  {
    PlainPrefix(rule, t, []);
    assert t + [] == t;
  }

  /** Text without a backslash passes every rule of a list unchanged. */
  lemma {:induction false} PlainUnchangedAll(rules: seq<Rule>, t: string)
    requires '\\' !in t
    ensures ApplyRules(rules, t) == t
  {
    if rules != [] {
      PlainUnchangedAll(rules[..|rules| - 1], t);
      PlainUnchanged(rules[|rules| - 1], t);
    }
  }

  /** Text without a backslash is left as it is by the whole rewrite. */
  lemma SanitizePlain(t: string)
    requires '\\' !in t
    ensures Sanitize(t) == t
  {
    PlainUnchanged(CiteRule, t);
    PlainUnchangedAll(Replacements, t);
  }

  /** A concatenation starts with its first part. */
  lemma {:induction false} PrefixOfConcat(p: string, r: string)
    ensures PrefixIs(p + r, p)
    decreases |p|
  {
    if p != [] {
      assert (p + r)[1..] == p[1..] + r;
      PrefixOfConcat(p[1..], r);
    }
  }

  /** A prefix of `s` is a prefix of anything `s` starts. */
  lemma {:induction false} PrefixExtends(s: string, p: string, r: string)
    requires PrefixIs(s, p)
    ensures PrefixIs(s + r, p)
    decreases |p|
  {
    if p != [] {
      assert (s + r)[1..] == s[1..] + r;
      PrefixExtends(s[1..], p[1..], r);
    }
  }

  /** `\command` followed by `{`, ARG, `}` and more starts with `\command`. */
  lemma BracedPrefix(command: string, arg: string, s: string)
    ensures PrefixIs(BracedText(command, arg) + s, "\\" + command)
  {
    var p := "\\" + command;
    PrefixOfConcat(p, "{");
    PrefixExtends(p + "{", p, arg);
    PrefixExtends(p + "{" + arg, p, "}");
    PrefixExtends(BracedText(command, arg), p, s);
  }

  /** The search from `k` stops at the first `c`, `n` characters on. */
  lemma {:induction false} FindFromAt(s: string, k: nat, n: nat, c: char)
    requires k + n < |s| && s[k + n] == c
    requires forall t :: k <= t < k + n ==> s[t] != c
    ensures FindFrom(s, k, c) == Some(k + n)
    decreases n
  {
    if n > 0 {
      FindFromAt(s, k + 1, n - 1, c);
    }
  }

  /** The text `\command{arg}`. */
  function BracedText(command: string, arg: string): string {
    "\\" + command + "{" + arg + "}"
  }

  /** `{arg}` at index `k`, ARG ending at the first `}`. */
  lemma BraceGroupAt(u: string, k: nat, arg: string)
    requires k + |arg| + 1 < |u| && u[k] == '{' && u[k + |arg| + 1] == '}' && '}' !in arg
    requires forall t :: 0 <= t < |arg| ==> u[k + 1 + t] == arg[t]
    ensures BraceGroup(u, k) == Some(Match(arg, k + 2 + |arg|))
  {
    forall t | k + 1 <= t < k + 1 + |arg|
      ensures u[t] != '}'
    {
      assert u[t] == arg[t - k - 1];
    }
    FindFromAt(u, k + 1, |arg|, '}');
    assert u[k + 1..k + 1 + |arg|] == arg;
  }

  /** `\command{arg}` at the start of the text is matched whole by the rule
      for that command, ARG ending at the first `}`. */
  lemma CommandMatch(rule: Rule, arg: string, s: string)
    requires '}' !in arg
    ensures MatchPrefix(rule, BracedText(CommandOf(rule), arg) + s)
      == Some(Match(arg, |BracedText(CommandOf(rule), arg)|))
  {
    var p := "\\" + CommandOf(rule);
    var u := BracedText(CommandOf(rule), arg) + s;
    BracedPrefix(CommandOf(rule), arg, s);
    BraceGroupAt(u, |p|, arg);
  }

  lemma BracedMatch(command: string, replacement: Replacement, arg: string, s: string)
    requires '}' !in arg
    ensures MatchPrefix(Braced(command, replacement), BracedText(command, arg) + s)
      == Some(Match(arg, |BracedText(command, arg)|))
  {
    CommandMatch(Braced(command, replacement), arg, s);
  }

  /** A match at the start is replaced, and the scan resumes after it. */
  lemma MatchedStep(rule: Rule, u: string, arg: string, n: nat)
    requires MatchPrefix(rule, u) == Some(Match(arg, n))
    ensures ApplyRule(rule, u) == Output(rule, arg) + ApplyRule(rule, u[n..])
  {
  }

  /** Where nothing matches at the start, one character is copied and the scan
      moves on by one. */
  lemma UnmatchedStep(rule: Rule, u: string)
    requires u != [] && MatchPrefix(rule, u) == None
    ensures ApplyRule(rule, u) == [u[0]] + ApplyRule(rule, u[1..])
  {
  }

  /** A braced command at the start is replaced, and the scan resumes after it. */
  lemma BracedRewrite(command: string, replacement: Replacement, arg: string, s: string)
    requires '}' !in arg
    ensures ApplyRule(Braced(command, replacement), BracedText(command, arg) + s)
      == Output(Braced(command, replacement), arg) + ApplyRule(Braced(command, replacement), s)
  {
    var u := BracedText(command, arg) + s;
    BracedMatch(command, replacement, arg, s);
    MatchedStep(Braced(command, replacement), u, arg, |BracedText(command, arg)|);
    assert u[|BracedText(command, arg)|..] == s;
  }

  /** `\includegraphics{file}` at the start is matched whole. */
  lemma GraphicsMatch(file: string, s: string)
    requires '}' !in file
    ensures MatchPrefix(Graphics, BracedText("includegraphics", file) + s)
      == Some(Match(file, |BracedText("includegraphics", file)|))
  {
    CommandMatch(Graphics, file, s);
  }

  /** `\includegraphics{file}` at the start is replaced by `[Image: file]`. */
  lemma GraphicsRewrite(file: string, s: string)
    requires '}' !in file
    ensures ApplyRule(Graphics, BracedText("includegraphics", file) + s)
      == "[Image: " + file + "]" + ApplyRule(Graphics, s)
  {
    var u := BracedText("includegraphics", file) + s;
    GraphicsMatch(file, s);
    MatchedStep(Graphics, u, file, |BracedText("includegraphics", file)|);
    assert u[|BracedText("includegraphics", file)|..] == s;
  }

  /** The text `\command[opts]{file}`. */
  function WithOptions(command: string, opts: string, file: string): string {
    "\\" + command + "[" + opts + "]{" + file + "}"
  }

  /** The text `\includegraphics[opts]{file}`. */
  function GraphicsWithOptions(opts: string, file: string): string {
    WithOptions("includegraphics", opts, file)
  }

  /** `\command[opts]{file}` starts with `\command`, then `[`, and the options
      and brace group after it span the whole text. */
  lemma OptionsText(command: string, opts: string, file: string, s: string)
    requires ']' !in opts && '}' !in file
    ensures PrefixIs(WithOptions(command, opts, file) + s, "\\" + command)
    ensures (WithOptions(command, opts, file) + s)[|command| + 1] == '['
    ensures OptionsGroup(WithOptions(command, opts, file) + s, |command| + 1)
      == Some(Match(file, |WithOptions(command, opts, file)|))
  {
    var p := "\\" + command;
    var u := WithOptions(command, opts, file) + s;
    PrefixOfConcat(p, "[");
    PrefixExtends(p + "[", p, opts);
    PrefixExtends(p + "[" + opts, p, "]{");
    PrefixExtends(p + "[" + opts + "]{", p, file);
    PrefixExtends(p + "[" + opts + "]{" + file, p, "}");
    PrefixExtends(WithOptions(command, opts, file), p, s);
    OptionsGroupAt(u, |p|, opts, file);
  }

  /** `\includegraphics[opts]{file}` at the start is matched whole, OPTS ending
      at the first `]`. */
  lemma GraphicsOptionsMatch(opts: string, file: string, s: string)
    requires ']' !in opts && '}' !in file
    ensures MatchPrefix(Graphics, GraphicsWithOptions(opts, file) + s)
      == Some(Match(file, |GraphicsWithOptions(opts, file)|))
  {
    OptionsText("includegraphics", opts, file, s);
  }

  /** `[opts]{file}` at index `k`, OPTS ending at the first `]` and FILE at the
      first `}`. */
  lemma OptionsGroupAt(u: string, k: nat, opts: string, file: string)
    requires k + |opts| + |file| + 3 < |u| && ']' !in opts && '}' !in file
    requires u[k] == '[' && u[k + 1 + |opts|] == ']' && u[k + 2 + |opts|] == '{'
    requires u[k + |opts| + |file| + 3] == '}'
    requires forall t :: 0 <= t < |opts| ==> u[k + 1 + t] == opts[t]
    requires forall t :: 0 <= t < |file| ==> u[k + 3 + |opts| + t] == file[t]
    ensures OptionsGroup(u, k) == Some(Match(file, k + |opts| + |file| + 4))
  {
    forall t | k + 1 <= t < k + 1 + |opts|
      ensures u[t] != ']'
    {
      assert u[t] == opts[t - k - 1];
    }
    FindFromAt(u, k + 1, |opts|, ']');
    BraceGroupAt(u, k + 2 + |opts|, file);
  }

  /** `\includegraphics[opts]{file}` at the start is replaced by `[Image: file]`:
      the options are dropped. */
  lemma GraphicsOptionsRewrite(opts: string, file: string, s: string)
    requires ']' !in opts && '}' !in file
    ensures ApplyRule(Graphics, GraphicsWithOptions(opts, file) + s)
      == "[Image: " + file + "]" + ApplyRule(Graphics, s)
  {
    var u := GraphicsWithOptions(opts, file) + s;
    GraphicsOptionsMatch(opts, file, s);
    MatchedStep(Graphics, u, file, |GraphicsWithOptions(opts, file)|);
    assert u[|GraphicsWithOptions(opts, file)|..] == s;
  }

  /** The pattern of `rule` fails at the start of `u` because the `i`-th
      character differs from `\command`. */
  lemma DiffersAt(rule: Rule, u: string, i: nat)
    requires i < |u| && i < |CommandOf(rule)| + 1 && u[i] != ("\\" + CommandOf(rule))[i]
    ensures MatchPrefix(rule, u) == None
  {
    NotPrefixAt(u, "\\" + CommandOf(rule), i);
  }

  /** A text that differs from `p` at index `i` does not start with `p`. */
  lemma {:induction false} NotPrefixAt(s: string, p: string, i: nat)
    requires i < |s| && i < |p| && s[i] != p[i]
    ensures !PrefixIs(s, p)
    decreases i
  {
    if i > 0 && s[0] == p[0] {
      NotPrefixAt(s[1..], p[1..], i - 1);
    }
  }

  /** `\command` is followed by something other than `{` (or `[` for the
      graphics rule), so the pattern fails: `\include` does not match
      `\includegraphics{f}`. */
  lemma NoBraceAfterCommand(rule: Rule, u: string)
    requires PrefixIs(u, "\\" + CommandOf(rule))
    requires |CommandOf(rule)| + 1 < |u| && u[|CommandOf(rule)| + 1] != '{'
    requires rule.Graphics? ==> u[|CommandOf(rule)| + 1] != '['
    ensures MatchPrefix(rule, u) == None
  {
  }

  /** A text whose only backslash is at its start, where the pattern fails, is
      left unchanged. */
  lemma KeptWithoutMatch(rule: Rule, u: string)
    requires u != [] && MatchPrefix(rule, u) == None && '\\' !in u[1..]
    ensures ApplyRule(rule, u) == u
  {
    PlainUnchanged(rule, u[1..]);
    assert [u[0]] + u[1..] == u;
  }

  /** Every rule of `rules` leaves `t` unchanged. */
  predicate KeepsAll(rules: seq<Rule>, t: string) {
    forall i :: 0 <= i < |rules| ==> ApplyRule(rules[i], t) == t
  }

  lemma {:induction false} ApplyRulesAppend(a: seq<Rule>, b: seq<Rule>, s: string)
    ensures ApplyRules(a + b, s) == ApplyRules(b, ApplyRules(a, s))
    decreases |b|
  {
    if b == [] {
      assert a + b == a;
    } else {
      var b' := b[..|b| - 1];
      assert (a + b)[..|a + b| - 1] == a + b';
      assert (a + b)[|a + b| - 1] == b[|b| - 1];
      ApplyRulesAppend(a, b', s);
    }
  }

  lemma {:induction false} KeptByAll(rules: seq<Rule>, t: string)
    requires KeepsAll(rules, t)
    ensures ApplyRules(rules, t) == t
  {
    if rules != [] {
      assert KeepsAll(rules[..|rules| - 1], t);
      KeptByAll(rules[..|rules| - 1], t);
    }
  }

  /** Only the `k`-th rule changes the text: it turns `t` into `t'`, which the
      later rules keep. */
  lemma OneRuleFires(rules: seq<Rule>, k: nat, t: string, t': string)
    requires k < |rules| && KeepsAll(rules[..k], t) && ApplyRule(rules[k], t) == t'
    requires KeepsAll(rules[k + 1..], t')
    ensures ApplyRules(rules, t) == t'
  {
    assert rules == rules[..k] + ([rules[k]] + rules[k + 1..]);
    ApplyRulesAppend(rules[..k], [rules[k]] + rules[k + 1..], t);
    ApplyRulesAppend([rules[k]], rules[k + 1..], ApplyRules(rules[..k], t));
    KeptByAll(rules[..k], t);
    assert ApplyRules([rules[k]], t) == ApplyRule(rules[k], ApplyRules([], t));
    KeptByAll(rules[k + 1..], t');
  }

  /** Every rule of the table keeps a text without a backslash. */
  lemma TableKeepsPlain(t: string)
    requires '\\' !in t
    ensures KeepsAll(Replacements, t)
  {
    forall i | 0 <= i < |Replacements|
      ensures ApplyRule(Replacements[i], t) == t
    {
      PlainUnchanged(Replacements[i], t);
    }
  }

  /** Only the start of `\command{arg}` can hold a backslash. */
  lemma BracedTextTail(command: string, arg: string)
    requires '\\' !in command && '\\' !in arg
    ensures '\\' !in BracedText(command, arg)[1..]
  {
    assert BracedText(command, arg)[1..] == command + "{" + arg + "}";
  }

  /** A text whose only backslash is at its start, where the pattern of `rule`
      fails at index `j`, is left unchanged. */
  lemma KeptAt(rule: Rule, u: string, j: nat)
    requires u != [] && '\\' !in u[1..]
    requires j < |u| && j < |CommandOf(rule)| + 1 && u[j] != ("\\" + CommandOf(rule))[j]
    ensures ApplyRule(rule, u) == u
  {
    DiffersAt(rule, u, j);
    KeptWithoutMatch(rule, u);
  }

  /** A text that the citation rule and the first `k` table rules keep, and
      that the `k`-th rule turns into text the later rules keep, is rewritten by
      that rule alone. */
  lemma TableFires(k: nat, u: string, t': string)
    requires k < |Replacements| && ApplyRule(CiteRule, u) == u && KeepsAll(Replacements[..k], u)
    requires ApplyRule(Replacements[k], u) == t' && KeepsAll(Replacements[k + 1..], t')
    ensures Sanitize(u) == t'
  {
    OneRuleFires(Replacements, k, u, t');
  }

  /** A text whose only backslash is at its start, where the pattern fails at
      index `j`, is copied through to what follows it. */
  lemma NoMatchThen(rule: Rule, a: string, b: string, j: nat)
    requires a != [] && '\\' !in a[1..]
    requires j < |a + b| && j < |CommandOf(rule)| + 1 && (a + b)[j] != ("\\" + CommandOf(rule))[j]
    ensures ApplyRule(rule, a + b) == a + ApplyRule(rule, b)
  {
    DiffersAt(rule, a + b, j);
    assert (a + b)[1..] == a[1..] + b;
    PlainPrefix(rule, a[1..], b);
    HeadTail(a, ApplyRule(rule, b));
  }

  /** `\re\label{}f{key}`: deleting the label joins `\re` and `f{key}`. */
  function JoinedRef(key: string): string {
    "\\re" + (BracedText("label", "") + ("f{" + key + "}"))
  }

  /** A rule whose command starts with neither `l` nor, at index `j`, the
      joined text keeps the joined text. */
  lemma JoinedRefKeptBy(rule: Rule, key: string, j: nat)
    requires '\\' !in key && CommandOf(rule) != [] && CommandOf(rule)[0] != 'l'
    requires j < 4 && j < |CommandOf(rule)| + 1 && ("\\re\\")[j] != ("\\" + CommandOf(rule))[j]
    ensures ApplyRule(rule, JoinedRef(key)) == JoinedRef(key)
  {
    var a := "\\re";
    var b := BracedText("label", "") + ("f{" + key + "}");
    var l := BracedText("label", "");
    assert '\\' !in b[1..] by {
      BracedTextTail("label", "");
      TailOfConcat(l, "f{" + key + "}");
      NotInConcat('\\', "f{", key);
      NotInConcat('\\', "f{" + key, "}");
      NotInConcat('\\', l[1..], "f{" + key + "}");
    }
    KeptAt(rule, b, 1);
    assert (a + b)[j] == ("\\re\\")[j];
    NoMatchThen(rule, a, b, j);
  }

  /** The rules before the label rule keep the joined text. */
  lemma JoinedRefKeptBefore(key: string)
    requires '\\' !in key
    ensures ApplyRule(CiteRule, JoinedRef(key)) == JoinedRef(key)
    ensures KeepsAll(Replacements[..2], JoinedRef(key))
  {
    JoinedRefKeptBy(CiteRule, key, 1);
    forall i | 0 <= i < 2
      ensures ApplyRule(Replacements[i], JoinedRef(key)) == JoinedRef(key)
    {
      JoinedRefKeptBy(Replacements[i], key, if i == 0 then 1 else 3);
    }
  }

  /** The label rule deletes `\label{}` and leaves `\ref{key}`. */
  lemma JoinedRefLabel(key: string)
    requires '\\' !in key && '}' !in key
    ensures ApplyRule(Replacements[2], JoinedRef(key)) == BracedText("ref", key)
  {
    var c := "f{" + key + "}";
    DeletionJoins(Replacements[2], "\\re", "", c);
    assert "\\re" + c == BracedText("ref", key);
  }

  /** A deleting rule that fails at the start of `a` but matches right after
      it joins `a` to what follows the match. */
  lemma DeletionJoins(rule: Rule, a: string, arg: string, c: string)
    requires rule.Braced? && rule.replacement == Fixed("")
    requires 1 < |a| && '\\' !in a[1..] && 1 < |CommandOf(rule)| && a[1] != CommandOf(rule)[0]
    requires '\\' !in c && '}' !in arg
    ensures ApplyRule(rule, a + (BracedText(CommandOf(rule), arg) + c)) == a + c
  {
    var b := BracedText(CommandOf(rule), arg) + c;
    assert (a + b)[1] == a[1];
    NoMatchThen(rule, a, b, 1);
    BracedRewrite(CommandOf(rule), rule.replacement, arg, c);
    PlainUnchanged(rule, c);
    assert "" + c == c;
  }

  /** A text whose only backslash is at its start, where the pattern of `rule`
      fails, is kept between backslash-free text `t` and `s`. */
  lemma KeptInContext(rule: Rule, t: string, u: string, s: string)
    requires '\\' !in t && '\\' !in s && u != [] && '\\' !in u[1..]
    requires MatchPrefix(rule, u + s) == None
    ensures ApplyRule(rule, t + u + s) == t + u + s
  {
    var w := u + s;
    Regroup(t, u, s);
    TailOfConcat(u, s);
    NotInConcat('\\', u[1..], s);
    PlainPrefix(rule, t, w);
    KeptWithoutMatch(rule, w);
  }

  /** A rule's own command between backslash-free text `t` and `s` is replaced
      by the rule's output, and nothing around it changes. */
  lemma FiresInContext(rule: Rule, t: string, arg: string, s: string)
    requires '\\' !in t && '\\' !in s && '}' !in arg
    ensures ApplyRule(rule, t + BracedText(CommandOf(rule), arg) + s) == t + Output(rule, arg) + s
  {
    var b := BracedText(CommandOf(rule), arg);
    var w := b + s;
    Regroup(t, b, s);
    PlainPrefix(rule, t, w);
    CommandMatch(rule, arg, s);
    MatchedStep(rule, w, arg, |b|);
    assert w[|b|..] == s;
    PlainUnchanged(rule, s);
    Regroup(t, Output(rule, arg), s);
  }

  /** The pattern of `rule` fails at index `j` of `\command{arg}`, which is
      therefore kept between backslash-free text `t` and `s`. */
  lemma KeptDiffering(rule: Rule, command: string, arg: string, j: nat, t: string, s: string)
    requires '\\' !in command && '\\' !in arg && '\\' !in t && '\\' !in s
    requires 0 < j <= |command| + 1 && j <= |CommandOf(rule)|
    requires BracedText(command, arg)[j] != ("\\" + CommandOf(rule))[j]
    ensures ApplyRule(rule, t + BracedText(command, arg) + s) == t + BracedText(command, arg) + s
  {
    var b := BracedText(command, arg);
    BracedTextTail(command, arg);
    assert (b + s)[j] == b[j];
    DiffersAt(rule, b + s, j);
    KeptInContext(rule, t, b, s);
  }

  /** A rule for another initial letter keeps `\command{arg}` between
      backslash-free text `t` and `s`. */
  lemma KeptByOther(rule: Rule, command: string, arg: string, t: string, s: string)
    requires '\\' !in command && '\\' !in arg && '\\' !in t && '\\' !in s
    requires command != [] && CommandOf(rule) != [] && CommandOf(rule)[0] != command[0]
    ensures ApplyRule(rule, t + BracedText(command, arg) + s) == t + BracedText(command, arg) + s
  {
    assert BracedText(command, arg)[1] == command[0];
    KeptDiffering(rule, command, arg, 1, t, s);
  }

  /** `\command{arg}` where the command extends that of `rule` by `rest`, which
      does not start with `{` (nor `[` for the graphics rule), is kept between
      backslash-free text `t` and `s`: `\bibliography` does not match
      `\bibliographystyle{style}`. */
  lemma KeptExtended(rule: Rule, rest: string, arg: string, t: string, s: string)
    requires '\\' !in CommandOf(rule) && '\\' !in rest && '\\' !in arg && '\\' !in t && '\\' !in s
    requires rest != [] && rest[0] != '{' && (rule.Graphics? ==> rest[0] != '[')
    ensures ApplyRule(rule, t + BracedText(CommandOf(rule) + rest, arg) + s)
      == t + BracedText(CommandOf(rule) + rest, arg) + s
  {
    var c := CommandOf(rule);
    var p := "\\" + c;
    var b := BracedText(c + rest, arg);
    var r := rest + "{" + arg + "}";
    assert b == p + r;
    Regroup(p, r, s);
    PrefixOfConcat(p, r + s);
    assert (r + s)[0] == rest[0];
    NoBraceAfterCommand(rule, b + s);
    BracedTextTail(c + rest, arg);
    KeptInContext(rule, t, b, s);
  }

  /** Table rules for other initial letters keep `\command{arg}` between
      backslash-free text `t` and `s`. */
  lemma KeptByEarlier(k: nat, command: string, arg: string, t: string, s: string)
    requires k <= |Replacements| && command != []
    requires '\\' !in command && '\\' !in arg && '\\' !in t && '\\' !in s
    requires forall i :: 0 <= i < k ==> CommandOf(Replacements[i]) != [] && CommandOf(Replacements[i])[0] != command[0]
    ensures KeepsAll(Replacements[..k], t + BracedText(command, arg) + s)
  {
    forall i | 0 <= i < k
      ensures ApplyRule(Replacements[i], t + BracedText(command, arg) + s) == t + BracedText(command, arg) + s
    {
      KeptByOther(Replacements[i], command, arg, t, s);
    }
  }

  lemma KeepsOneMore(rules: seq<Rule>, k: nat, u: string)
    requires k < |rules| && KeepsAll(rules[..k], u) && ApplyRule(rules[k], u) == u
    ensures KeepsAll(rules[..k + 1], u)
  {
    forall i | 0 <= i < k + 1
      ensures ApplyRule(rules[i], u) == u
    {
      if i < k {
        assert rules[i] == rules[..k][i];
      }
    }
  }

  /** The rules after the label rule keep `\ref{key}`. */
  lemma RefKeptAfter(key: string)
    requires '\\' !in key
    ensures KeepsAll(Replacements[3..], BracedText("ref", key))
  {
    assert "" + BracedText("ref", key) + "" == BracedText("ref", key);
    forall i | 3 <= i < |Replacements|
      ensures ApplyRule(Replacements[i], BracedText("ref", key)) == BracedText("ref", key)
    {
      KeptByOther(Replacements[i], "ref", key, "", "");
    }
  }

  /** The rewrite is not idempotent: the label rule joins text that the
      reference rule, which ran before it, would have replaced. */
  lemma SanitizeNotIdempotent(key: string)
    requires '\\' !in key && '}' !in key
    ensures Sanitize(JoinedRef(key)) == BracedText("ref", key)
    ensures Sanitize(Sanitize(JoinedRef(key))) == "[ref]"
  {
    JoinedRefKeptBefore(key);
    JoinedRefLabel(key);
    RefKeptAfter(key);
    OneRuleFires(Replacements, 2, JoinedRef(key), BracedText("ref", key));
    SanitizeRef("", key, "");
    assert "" + BracedText("ref", key) + "" == BracedText("ref", key);
    assert "" + "[ref]" + "" == "[ref]";
  }

  /** A rule's own command alone, with ARG closed by `}`, becomes its output. */
  lemma RuleAlone(rule: Rule, arg: string)
    requires '}' !in arg
    ensures ApplyRule(rule, BracedText(CommandOf(rule), arg)) == Output(rule, arg)
  {
    var u := BracedText(CommandOf(rule), arg);
    CommandMatch(rule, arg, []);
    assert u + [] == u;
    MatchedStep(rule, u, arg, |u|);
    assert u[|u|..] == [];
    assert Output(rule, arg) + [] == Output(rule, arg);
  }

  /** The outputs of the table hold no backslash beyond what ARG holds. */
  lemma OutputPlain(k: nat, arg: string)
    requires k < |Replacements| && '\\' !in arg
    ensures '\\' !in Output(Replacements[k], arg)
  {
    match Replacements[k]
    case Graphics =>
      assert Output(Graphics, arg) == "[Image: " + arg + "]";
    case Braced(_, Fixed(text)) =>
      assert text == "[ref]" || text == "";
    case Braced(_, Wrap(before, after)) =>
      assert after == "";
      assert before == "% Input file: " || before == "% Include file: " || before == "% Bibliography: ";
  }

  /** The outputs of the table hold no `}` beyond what ARG holds. */
  lemma OutputUnclosed(k: nat, arg: string)
    requires k < |Replacements| && '}' !in arg
    ensures '}' !in Output(Replacements[k], arg)
  {
    match Replacements[k]
    case Graphics =>
      assert Output(Graphics, arg) == "[Image: " + arg + "]";
    case Braced(_, Fixed(text)) =>
      assert text == "[ref]" || text == "";
    case Braced(_, Wrap(before, after)) =>
      assert after == "";
      assert before == "% Input file: " || before == "% Include file: " || before == "% Bibliography: ";
  }

  /** `\command{arg}`, with `\command` one of the table's and ARG closed by `}`,
      kept by the citation rule and by every earlier table rule, is rewritten
      by the whole preprocessing to that rule's output. */
  lemma SanitizeLone(k: nat, arg: string)
    requires k < |Replacements| && '}' !in arg
    requires ApplyRule(CiteRule, BracedText(CommandOf(Replacements[k]), arg))
      == BracedText(CommandOf(Replacements[k]), arg)
    requires KeepsAll(Replacements[..k], BracedText(CommandOf(Replacements[k]), arg))
    ensures Sanitize(BracedText(CommandOf(Replacements[k]), arg)) == Output(Replacements[k], arg)
  {
    var t' := Output(Replacements[k], arg);
    RuleAlone(Replacements[k], arg);
    OutputUnclosed(k, arg);
    UnclosedKeptByAll(t');
    assert KeepsAll(Replacements[k + 1..], t');
    TableFires(k, BracedText(CommandOf(Replacements[k]), arg), t');
  }

  /** The same between backslash-free text `t` and `s`, for an ARG without a
      backslash: `\command{arg}` is replaced by the rule's output and nothing
      around it changes. */
  lemma SanitizeEntry(k: nat, command: string, out: string, t: string, arg: string, s: string)
    requires k < |Replacements| && CommandOf(Replacements[k]) == command && Output(Replacements[k], arg) == out
    requires '\\' !in t && '\\' !in s && '\\' !in arg && '}' !in arg
    requires ApplyRule(CiteRule, t + BracedText(command, arg) + s) == t + BracedText(command, arg) + s
    requires KeepsAll(Replacements[..k], t + BracedText(command, arg) + s)
    ensures Sanitize(t + BracedText(command, arg) + s) == t + out + s
  {
    var t' := t + out + s;
    FiresInContext(Replacements[k], t, arg, s);
    OutputPlain(k, arg);
    TableKeepsPlain(t');
    assert KeepsAll(Replacements[k + 1..], t');
    TableFires(k, t + BracedText(command, arg) + s, t');
  }

  /** `\includegraphics{file}` becomes `[Image: file]`. */
  lemma SanitizeGraphics(t: string, file: string, s: string)
    requires '\\' !in t && '\\' !in s && '\\' !in file && '}' !in file
    ensures Sanitize(t + BracedText("includegraphics", file) + s) == t + ("[Image: " + file + "]") + s
  {
    KeptByOther(CiteRule, "includegraphics", file, t, s);
    assert Replacements[0] == Graphics;
    SanitizeEntry(0, "includegraphics", "[Image: " + file + "]", t, file, s);
  }

  /** `\ref{key}` becomes `[ref]`. */
  lemma SanitizeRef(t: string, key: string, s: string)
    requires '\\' !in t && '\\' !in s && '\\' !in key && '}' !in key
    ensures Sanitize(t + BracedText("ref", key) + s) == t + "[ref]" + s
  {
    var u := t + BracedText("ref", key) + s;
    KeptByOther(CiteRule, "ref", key, t, s);
    forall i | 0 <= i < 1
      ensures ApplyRule(Replacements[i], u) == u
    {
      KeptByOther(Replacements[i], "ref", key, t, s);
    }
    assert Replacements[1] == Braced("ref", Fixed("[ref]"));
    SanitizeEntry(1, "ref", "[ref]", t, key, s);
  }

  /** `\label{name}` is deleted. */
  lemma SanitizeLabel(t: string, name: string, s: string)
    requires '\\' !in t && '\\' !in s && '\\' !in name && '}' !in name
    ensures Sanitize(t + BracedText("label", name) + s) == t + s
  {
    KeptByOther(CiteRule, "label", name, t, s);
    KeptByEarlier(2, "label", name, t, s);
    assert Replacements[2] == Braced("label", Fixed(""));
    SanitizeEntry(2, "label", "", t, name, s);
    assert t + "" + s == t + s;
  }

  /** The citation rule and the three table rules before the input rule keep
      `\input{file}` in its context. */
  lemma InputKeptBefore(t: string, file: string, s: string)
    requires '\\' !in t && '\\' !in s && '\\' !in file
    ensures ApplyRule(CiteRule, t + BracedText("input", file) + s) == t + BracedText("input", file) + s
    ensures KeepsAll(Replacements[..3], t + BracedText("input", file) + s)
  {
    var u := t + BracedText("input", file) + s;
    KeptByOther(CiteRule, "input", file, t, s);
    forall i | 0 <= i < 3
      ensures ApplyRule(Replacements[i], u) == u
    {
      if i == 0 {
        KeptDiffering(Replacements[i], "input", file, 3, t, s);
      } else {
        KeptByOther(Replacements[i], "input", file, t, s);
      }
    }
  }

  /** `\input{file}` becomes the comment `% Input file: file`. */
  lemma SanitizeInput(t: string, file: string, s: string)
    requires '\\' !in t && '\\' !in s && '\\' !in file && '}' !in file
    ensures Sanitize(t + BracedText("input", file) + s) == t + ("% Input file: " + file) + s
  {
    InputKeptBefore(t, file, s);
    assert Replacements[3] == Braced("input", Wrap("% Input file: ", ""));
    assert "% Input file: " + file + "" == "% Input file: " + file;
    SanitizeEntry(3, "input", "% Input file: " + file, t, file, s);
  }

  /** The graphics rule keeps `\include{file}`: `{` stands where `graphics`
      would go on. */
  lemma IncludeKeptByGraphics(t: string, file: string, s: string)
    requires '\\' !in t && '\\' !in s && '\\' !in file
    ensures ApplyRule(Replacements[0], t + BracedText("include", file) + s) == t + BracedText("include", file) + s
  {
    assert Replacements[0] == Graphics;
    KeptDiffering(Graphics, "include", file, 8, t, s);
  }

  /** The input rule keeps `\include{file}`: the commands part at their third
      letter. */
  lemma IncludeKeptByInput(t: string, file: string, s: string)
    requires '\\' !in t && '\\' !in s && '\\' !in file
    ensures ApplyRule(Replacements[3], t + BracedText("include", file) + s) == t + BracedText("include", file) + s
  {
    assert Replacements[3] == Braced("input", Wrap("% Input file: ", ""));
    KeptDiffering(Replacements[3], "include", file, 3, t, s);
  }

  /** The citation rule and the four table rules before the include rule keep
      `\include{file}` in its context. */
  lemma IncludeKeptBefore(t: string, file: string, s: string)
    requires '\\' !in t && '\\' !in s && '\\' !in file
    ensures ApplyRule(CiteRule, t + BracedText("include", file) + s) == t + BracedText("include", file) + s
    ensures KeepsAll(Replacements[..4], t + BracedText("include", file) + s)
  {
    var u := t + BracedText("include", file) + s;
    KeptByOther(CiteRule, "include", file, t, s);
    forall i | 0 <= i < 4
      ensures ApplyRule(Replacements[i], u) == u
    {
      if i == 0 {
        IncludeKeptByGraphics(t, file, s);
      } else if i == 3 {
        IncludeKeptByInput(t, file, s);
      } else {
        KeptByOther(Replacements[i], "include", file, t, s);
      }
    }
  }

  /** `\include{file}` becomes the comment `% Include file: file`; the graphics
      rule does not take it, since `{` follows where `graphics` would. */
  lemma SanitizeInclude(t: string, file: string, s: string)
    requires '\\' !in t && '\\' !in s && '\\' !in file && '}' !in file
    ensures Sanitize(t + BracedText("include", file) + s) == t + ("% Include file: " + file) + s
  {
    IncludeKeptBefore(t, file, s);
    assert Replacements[4] == Braced("include", Wrap("% Include file: ", ""));
    assert "% Include file: " + file + "" == "% Include file: " + file;
    SanitizeEntry(4, "include", "% Include file: " + file, t, file, s);
  }

  /** `\bibliography{file}` becomes the comment `% Bibliography: file`. */
  lemma SanitizeBibliography(t: string, file: string, s: string)
    requires '\\' !in t && '\\' !in s && '\\' !in file && '}' !in file
    ensures Sanitize(t + BracedText("bibliography", file) + s) == t + ("% Bibliography: " + file) + s
  {
    KeptByOther(CiteRule, "bibliography", file, t, s);
    KeptByEarlier(5, "bibliography", file, t, s);
    assert Replacements[5] == Braced("bibliography", Wrap("% Bibliography: ", ""));
    assert "% Bibliography: " + file + "" == "% Bibliography: " + file;
    SanitizeEntry(5, "bibliography", "% Bibliography: " + file, t, file, s);
  }

  /** The bibliography rule keeps `\bibliographystyle{style}`. */
  lemma StyleKeptByBibliography(t: string, style: string, s: string)
    requires '\\' !in t && '\\' !in s && '\\' !in style
    ensures ApplyRule(Replacements[5], t + BracedText("bibliographystyle", style) + s)
      == t + BracedText("bibliographystyle", style) + s
  {
    KeptExtended(Replacements[5], "style", style, t, s);
    assert CommandOf(Replacements[5]) + "style" == "bibliographystyle";
  }

  /** The citation rule and the table rules before its own keep
      `\bibliographystyle{style}`. */
  lemma StyleKeptBefore(t: string, style: string, s: string)
    requires '\\' !in t && '\\' !in s && '\\' !in style
    ensures ApplyRule(CiteRule, t + BracedText("bibliographystyle", style) + s)
      == t + BracedText("bibliographystyle", style) + s
    ensures KeepsAll(Replacements[..6], t + BracedText("bibliographystyle", style) + s)
  {
    KeptByOther(CiteRule, "bibliographystyle", style, t, s);
    KeptByEarlier(5, "bibliographystyle", style, t, s);
    StyleKeptByBibliography(t, style, s);
    KeepsOneMore(Replacements, 5, t + BracedText("bibliographystyle", style) + s);
  }

  /** `\bibliographystyle{style}` is deleted; the bibliography rule does not
      take it. */
  lemma SanitizeBibliographyStyle(t: string, style: string, s: string)
    requires '\\' !in t && '\\' !in s && '\\' !in style && '}' !in style
    ensures Sanitize(t + BracedText("bibliographystyle", style) + s) == t + s
  {
    StyleKeptBefore(t, style, s);
    assert Replacements[6] == Braced("bibliographystyle", Fixed(""));
    SanitizeEntry(6, "bibliographystyle", "", t, style, s);
    assert t + "" + s == t + s;
  }

  /** `s` starts with `p`: read at index `i`. */
  lemma {:induction false} PrefixAt(s: string, p: string, i: nat)
    requires PrefixIs(s, p) && i < |p|
    ensures i < |s| && s[i] == p[i]
    decreases i
  {
    if i > 0 {
      PrefixAt(s[1..], p[1..], i - 1);
    }
  }

  /** No match of a braced rule starts in `a`, which holds no `{` and does not
      end with a character of `\command`, when `b` starts with a `{` that the
      command does not hold. */
  lemma NoOpenAhead(rule: Rule, a: string, b: string)
    requires rule.Braced? && a != [] && '{' !in a && a[|a| - 1] != '\\' && a[|a| - 1] !in CommandOf(rule)
    requires b != [] && b[0] == '{' && '{' !in CommandOf(rule)
    ensures MatchPrefix(rule, a + b) == None
  {
    var c := CommandOf(rule);
    var p := "\\" + c;
    var u := a + b;
    if |a| <= |c| {
      assert u[|a|] == b[0] && p[|a|] == c[|a| - 1];
      NotPrefixAt(u, p, |a|);
    } else if |a| == |c| + 1 {
      if c != [] {
        assert p[|c|] == c[|c| - 1];
      }
      assert u[|c|] == a[|a| - 1];
      NotPrefixAt(u, p, |c|);
    } else {
      assert u[|p|] == a[|c| + 1];
    }
  }

  /** A braced rule copies such an `a` and resumes at `b`. */
  lemma {:induction false} NoOpenPrefixKept(rule: Rule, a: string, b: string)
    requires rule.Braced? && '{' !in a && (a != [] ==> a[|a| - 1] != '\\' && a[|a| - 1] !in CommandOf(rule))
    requires b != [] && b[0] == '{' && '{' !in CommandOf(rule)
    ensures ApplyRule(rule, a + b) == a + ApplyRule(rule, b)
    decreases |a|
  {
    if a == [] {
      assert a + b == b;
    } else {
      NoOpenAhead(rule, a, b);
      UnmatchedStep(rule, a + b);
      NotInTail(a, '{');
      if a[1..] != [] {
        assert a[1..][|a[1..]| - 1] == a[|a| - 1];
      }
      NoOpenPrefixKept(rule, a[1..], b);
      TailOfConcat(a, b);
      HeadTail(a, ApplyRule(rule, b));
    }
  }

  /** A braced rule whose command holds neither `{` nor `]` keeps
      `\command[opts]{file}` with OPTS free of `{`, between backslash-free text
      `t` and `s`: every `{` there follows `]`. */
  lemma OptionsKeptByBraced(rule: Rule, command: string, opts: string, file: string, t: string, s: string)
    requires rule.Braced? && '{' !in CommandOf(rule) && ']' !in CommandOf(rule)
    requires '{' !in command && '{' !in opts && '\\' !in file && '\\' !in t && '\\' !in s
    ensures ApplyRule(rule, t + WithOptions(command, opts, file) + s) == t + WithOptions(command, opts, file) + s
  {
    var a0 := "\\" + command;
    var a1 := a0 + "[";
    var a2 := a1 + opts;
    var a := a2 + "]";
    var f := "{" + file + "}";
    var b := f + s;
    WithOptionsSplit(command, opts, file);
    Regroup(a, f, s);
    Regroup(t, a + f, s);
    NotInConcat('{', "\\", command);
    NotInConcat('{', a0, "[");
    NotInConcat('{', a1, opts);
    NotInConcat('{', a2, "]");
    assert a[|a| - 1] == ']';
    PlainPrefix(rule, t, a + b);
    NoOpenPrefixKept(rule, a, b);
    PlainUnchanged(rule, b);
  }

  /** `\command[opts]{file}` is the text up to `]` followed by the brace group. */
  lemma WithOptionsSplit(command: string, opts: string, file: string)
    ensures WithOptions(command, opts, file) == ("\\" + command + "[" + opts + "]") + ("{" + file + "}")
  {
  }

  /** The graphics rule replaces `\includegraphics[opts]{file}` between
      backslash-free text `t` and `s`. */
  lemma GraphicsOptionsInContext(t: string, opts: string, file: string, s: string)
    requires '\\' !in t && '\\' !in s && ']' !in opts && '}' !in file
    ensures ApplyRule(Graphics, t + GraphicsWithOptions(opts, file) + s) == t + ("[Image: " + file + "]") + s
  {
    var g := GraphicsWithOptions(opts, file);
    var o := "[Image: " + file + "]";
    Regroup(t, g, s);
    PlainPrefix(Graphics, t, g + s);
    GraphicsOptionsRewrite(opts, file, s);
    PlainUnchanged(Graphics, s);
    Regroup(t, o, s);
  }

  /** The citation rule keeps `\includegraphics[opts]{file}`. */
  lemma CiteKeepsOptions(t: string, opts: string, file: string, s: string)
    requires '\\' !in t && '\\' !in s && '{' !in opts && '\\' !in file
    ensures ApplyRule(CiteRule, t + GraphicsWithOptions(opts, file) + s) == t + GraphicsWithOptions(opts, file) + s
  {
    OptionsKeptByBraced(CiteRule, "includegraphics", opts, file, t, s);
  }

  /** `\includegraphics[opts]{file}` becomes `[Image: file]`: the options are
      dropped, whatever they hold but `{`. */
  lemma SanitizeGraphicsOptions(t: string, opts: string, file: string, s: string)
    requires '\\' !in t && '\\' !in s && '{' !in opts && ']' !in opts && '\\' !in file && '}' !in file
    ensures Sanitize(t + GraphicsWithOptions(opts, file) + s) == t + ("[Image: " + file + "]") + s
  {
    var u := t + GraphicsWithOptions(opts, file) + s;
    var o := "[Image: " + file + "]";
    var t' := t + o + s;
    NotInConcat('\\', "[Image: ", file);
    NotInConcat('\\', "[Image: " + file, "]");
    NotInConcat('\\', t, o);
    NotInConcat('\\', t + o, s);
    CiteKeepsOptions(t, opts, file, s);
    GraphicsOptionsInContext(t, opts, file, s);
    assert Replacements[0] == Graphics;
    TableKeepsPlain(t');
    assert KeepsAll(Replacements[1..], t');
    TableFires(0, u, t');
  }

  /** A command whose brace is never closed is not matched, and the text is
      kept. */
  lemma UnclosedKept(rule: Rule, x: string)
    requires '\\' !in CommandOf(rule) && '\\' !in x && '}' !in x
    ensures ApplyRule(rule, "\\" + CommandOf(rule) + "{" + x) == "\\" + CommandOf(rule) + "{" + x
  {
    var p := "\\" + CommandOf(rule);
    var u := p + "{" + x;
    assert u == p + ("{" + x);
    PrefixOfConcat(p, "{" + x);
    forall t | |p| + 1 <= t < |u|
      ensures u[t] != '}'
    {
      assert u[t] == x[t - |p| - 1];
    }
    FindFromNone(u, |p| + 1, '}');
    assert u[1..] == CommandOf(rule) + "{" + x;
    KeptWithoutMatch(rule, u);
  }

  /** No `c` at or after `k`: the search fails. */
  lemma {:induction false} FindFromNone(s: string, k: nat, c: char)
    requires k <= |s| && forall t :: k <= t < |s| ==> s[t] != c
    ensures FindFrom(s, k, c) == None
    decreases |s| - k
  {
    if k < |s| {
      FindFromNone(s, k + 1, c);
    }
  }

  /** The table keeps the citation output `[\1]` in a backslash-free context:
      no command starts with `1`. */
  lemma CiteOutputKept(t: string, s: string)
    requires '\\' !in t && '\\' !in s
    ensures KeepsAll(Replacements, t + "[\\1]" + s)
  {
    var v := t + "[\\1]" + s;
    var x := t + "[";
    var w := "\\1]" + s;
    assert "[\\1]" == "[" + "\\1]";
    assert v == x + "\\1]" + s;
    forall i | 0 <= i < |Replacements|
      ensures ApplyRule(Replacements[i], v) == v
    {
      DiffersAt(Replacements[i], w, 1);
      KeptInContext(Replacements[i], x, "\\1]", s);
    }
  }

  /** The citation rule as written: `\cite{key}` becomes the four characters
      `[\1]`, whatever the key holds, and the table keeps them, so the key is
      lost; the text around it is untouched. */
  lemma CiteDropsKey(t: string, key: string, s: string)
    requires '\\' !in t && '\\' !in s && '}' !in key
    ensures ApplyRule(CiteRule, t + BracedText("cite", key) + s) == t + "[\\1]" + s
    ensures Sanitize(t + BracedText("cite", key) + s) == t + "[\\1]" + s
  {
    var v := t + "[\\1]" + s;
    FiresInContext(CiteRule, t, key, s);
    CiteOutputKept(t, s);
    KeptByAll(Replacements, v);
  }

  /** The citation rule as evidently intended: the replacement `[\1]` keeps the
      key inside square brackets. */
  const IntendedCiteRule: Rule := Braced("cite", Wrap("[", "]"))

  /** The whole rewrite with the intended citation rule. */
  function IntendedSanitize(s: string): string {
    ApplyRules(Replacements, ApplyRule(IntendedCiteRule, s))
  }

  /** With the intended rule, `\cite{key}` becomes `[key]`. */
  lemma IntendedCiteKeepsKey(key: string)
    requires '}' !in key
    ensures IntendedSanitize(BracedText("cite", key)) == "[" + key + "]"
  {
    RuleAlone(IntendedCiteRule, key);
    UnclosedKeptByAll("[" + key + "]");
  }

  /** The same between backslash-free text `t` and `s`, for a key without a
      backslash. */
  lemma IntendedCiteInContext(t: string, key: string, s: string)
    requires '\\' !in t && '\\' !in s && '\\' !in key && '}' !in key
    ensures IntendedSanitize(t + BracedText("cite", key) + s) == t + "[" + key + "]" + s
  {
    FiresInContext(IntendedCiteRule, t, key, s);
    assert t + Output(IntendedCiteRule, key) + s == t + "[" + key + "]" + s;
    PlainUnchangedAll(Replacements, t + "[" + key + "]" + s);
  }

  /** `\citep{key}` is not a citation for the rule (`p` follows where `{`
      should) and passes the whole rewrite unchanged. */
  lemma CitepKept(t: string, key: string, s: string)
    requires '\\' !in t && '\\' !in s && '\\' !in key
    ensures Sanitize(t + BracedText("citep", key) + s) == t + BracedText("citep", key) + s
  {
    var u := t + BracedText("citep", key) + s;
    KeptExtended(CiteRule, "p", key, t, s);
    assert CommandOf(CiteRule) + "p" == "citep";
    forall i | 0 <= i < |Replacements|
      ensures ApplyRule(Replacements[i], u) == u
    {
      KeptByOther(Replacements[i], "citep", key, t, s);
    }
    KeptByAll(Replacements, u);
  }
}
