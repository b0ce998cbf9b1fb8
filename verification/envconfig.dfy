/** The interactive `.env` configurator (`configure_envs.py`): for every
    variable of a `.env.example` template it offers a default (the value
    already in `.env`, else the template's), reads the user's answer and
    writes one `KEY=value` line per variable. File access and `input()` are
    parameters: the texts of both files (absent when missing) and the
    answers the user would type, in order. */
module EnvConfig {
  import opened Optional
  import opened PyStr

  /** A stripped line the configurator skips: blank, a comment, or one
      without `=`. */
  predicate Ignored(l: string) {
    |l| == 0 || l[0] == '#' || '=' !in l
  }

  /** One `KEY=VALUE` assignment. */
  datatype Var = Var(key: string, value: string)

  /** A key as the configurator produces it: trimmed, without `=` or a
      newline, and not starting a comment. */
  predicate CleanKey(k: string) {
    Trimmed(k) && '=' !in k && !StartsWith(k, '#') && '\n' !in k
  }

  predicate CleanValue(v: string) {
    Trimmed(v) && '\n' !in v
  }

  predicate Clean(v: Var) {
    CleanKey(v.key) && CleanValue(v.value)
  }

  /** One line of a file: the assignment it holds, split at the first `=`
      with both sides stripped, or `None` when the line is skipped. */
  function ParseLine(line: string): (r: Option<Var>)
    ensures r.None? <==> Ignored(Strip(line))
    ensures r.Some? ==> Trimmed(r.value.key) && Trimmed(r.value.value) && '=' !in r.value.key
    ensures r.Some? ==> exists a, b :: Strip(line) == a + ['='] + b && '=' !in a && r.value == Var(Strip(a), Strip(b))
    ensures r.Some? && '\n' !in Strip(line) ==> Clean(r.value)
  {
    var l := Strip(line);
    if Ignored(l) then None
    else
      var parts := SplitOnce(l, '=');
      var v := Var(Strip(parts.0), Strip(parts.1));
      assert l == parts.0 + ['='] + parts.1 && '=' !in parts.0 && v == Var(Strip(parts.0), Strip(parts.1));
      StripInfix(parts.0);
      StripInfix(parts.1);
      KeyKeepsFirstChar(l, parts.0, parts.1);
      assert '\n' !in l ==> '\n' !in parts.0 && '\n' !in parts.1 by {
        assert l == parts.0 + ['='] + parts.1;
      }
      Some(v)
  }

  /** The key of a kept line starts with the line's first character, so it
      never starts a comment. */
  lemma KeyKeepsFirstChar(l: string, kp: string, vp: string)
    requires Trimmed(l) && !Ignored(l) && l == kp + ['='] + vp
    ensures !StartsWith(Strip(kp), '#')
  {
    var key := Strip(kp);
    if |key| > 0 {
      var lo := StripStart(kp);
      assert |kp| > 0;
      assert kp[0] == l[0];
      assert lo == 0 by {
        assert !IsSpace(kp[0]);
        assert AllSpace(kp[..lo]);
      }
      assert key[0] == kp[0];
    }
  }

  /** The values present, in order. */
  function Somes(xs: seq<Option<Var>>): seq<Var>
    decreases |xs|
  {
    if |xs| == 0 then [] else (if xs[0].Some? then [xs[0].value] else []) + Somes(xs[1..])
  }

  lemma {:induction false} SomesFrom(xs: seq<Option<Var>>)
    ensures forall v :: v in Somes(xs) ==> Some(v) in xs
    decreases |xs|
  {
    if |xs| > 0 {
      SomesFrom(xs[1..]);
      forall v | v in Somes(xs)
        ensures Some(v) in xs
      {
        if v !in Somes(xs[1..]) {
          assert xs[0] == Some(v);
        } else {
          assert Some(v) in xs[1..];
        }
      }
    }
  }

  lemma {:induction false} SomesOfPresent(xs: seq<Option<Var>>)
    requires forall i :: 0 <= i < |xs| ==> xs[i].Some?
    ensures |Somes(xs)| == |xs|
    ensures forall i :: 0 <= i < |xs| ==> Somes(xs)[i] == xs[i].value
    decreases |xs|
  {
    if |xs| > 0 {
      SomesOfPresent(xs[1..]);
    }
  }

  /** The assignments of some lines, in order. */
  function Entries(lines: seq<string>): seq<Var> {
    Somes(seq(|lines|, i requires 0 <= i < |lines| => ParseLine(lines[i])))
  }

  lemma EntriesClean(lines: seq<string>)
    requires forall k :: 0 <= k < |lines| ==> FileLine(lines[k])
    ensures forall i :: 0 <= i < |Entries(lines)| ==> Clean(Entries(lines)[i])
  {
    var ps := seq(|lines|, i requires 0 <= i < |lines| => ParseLine(lines[i]));
    SomesFrom(ps);
    forall i | 0 <= i < |Entries(lines)|
      ensures Clean(Entries(lines)[i])
    {
      var v := Entries(lines)[i];
      assert v in Somes(ps);
      var k :| 0 <= k < |ps| && ps[k] == Some(v);
      StripDropsNewline(lines[k]);
    }
  }

  /** Every assignment read from a file is clean. */
  lemma FileEntriesClean(text: string)
    ensures forall i :: 0 <= i < |Entries(FileLines(text))| ==> Clean(Entries(FileLines(text))[i])
  {
    FileLinesShape(text);
    EntriesClean(FileLines(text));
  }

  /** Lines that all hold an assignment give one entry each. */
  lemma EntriesOfParsed(lines: seq<string>)
    requires forall k :: 0 <= k < |lines| ==> ParseLine(lines[k]).Some?
    ensures |Entries(lines)| == |lines|
    ensures forall k :: 0 <= k < |lines| ==> Entries(lines)[k] == ParseLine(lines[k]).value
  {
    SomesOfPresent(seq(|lines|, i requires 0 <= i < |lines| => ParseLine(lines[i])));
  }

  /** `existing_vars[key] = value` for each assignment in turn. */
  function Vars(es: seq<Var>): map<string, string>
    decreases |es|
  {
    if |es| == 0 then map[]
    else Vars(es[..|es| - 1])[es[|es| - 1].key := es[|es| - 1].value]
  }

  /** A key is defined exactly when some assignment names it. */
  lemma {:induction false} VarsDomain(es: seq<Var>)
    ensures forall k :: k in Vars(es) <==> exists i :: 0 <= i < |es| && es[i].key == k
    decreases |es|
  {
    if |es| > 0 {
      var init := es[..|es| - 1];
      VarsDomain(init);
      forall k | k in Vars(es)
        ensures exists i :: 0 <= i < |es| && es[i].key == k
      {
        if k != es[|es| - 1].key {
          assert k in Vars(init);
          var i :| 0 <= i < |init| && init[i].key == k;
          assert es[i] == init[i];
        }
      }
      forall k | exists i :: 0 <= i < |es| && es[i].key == k
        ensures k in Vars(es)
      {
        var i :| 0 <= i < |es| && es[i].key == k;
        if i < |es| - 1 {
          assert init[i] == es[i];
        }
      }
    }
  }

  /** When a key is repeated the last assignment wins. */
  lemma {:induction false} VarsLastWins(es: seq<Var>)
    ensures forall i :: 0 <= i < |es| && (forall j :: i < j < |es| ==> es[j].key != es[i].key) ==>
      es[i].key in Vars(es) && Vars(es)[es[i].key] == es[i].value
    decreases |es|
  {
    if |es| > 0 {
      var init := es[..|es| - 1];
      VarsLastWins(init);
      forall i | 0 <= i < |es| && (forall j :: i < j < |es| ==> es[j].key != es[i].key)
        ensures es[i].key in Vars(es) && Vars(es)[es[i].key] == es[i].value
      {
        if i < |es| - 1 {
          assert es[i] == init[i];
          forall j | i < j < |init|
            ensures init[j].key != init[i].key
          {
            assert init[j] == es[j];
          }
        }
      }
    }
  }

  /** Every value of the map comes from one of the assignments. */
  lemma {:induction false} VarsFromEntries(es: seq<Var>)
    ensures forall k :: k in Vars(es) ==> exists i :: 0 <= i < |es| && es[i] == Var(k, Vars(es)[k])
    decreases |es|
  {
    if |es| > 0 {
      var init := es[..|es| - 1];
      VarsFromEntries(init);
      forall k | k in Vars(es)
        ensures exists i :: 0 <= i < |es| && es[i] == Var(k, Vars(es)[k])
      {
        if k != es[|es| - 1].key {
          var i :| 0 <= i < |init| && init[i] == Var(k, Vars(init)[k]);
          assert es[i] == init[i];
        } else {
          assert es[|es| - 1] == Var(k, Vars(es)[k]);
        }
      }
    }
  }

  /** The variables of the current `.env`; none when it does not exist. */
  function ExistingVars(existing: Option<string>): map<string, string> {
    if existing.Some? then Vars(Entries(FileLines(existing.value))) else map[]
  }

  /** Values read from an existing file are clean. */
  lemma ExistingVarsClean(existing: Option<string>)
    ensures forall k :: k in ExistingVars(existing) ==> CleanValue(ExistingVars(existing)[k])
  {
    if existing.Some? {
      var es := Entries(FileLines(existing.value));
      FileEntriesClean(existing.value);
      VarsFromEntries(es);
      forall k | k in Vars(es)
        ensures CleanValue(Vars(es)[k])
      {
        var i :| 0 <= i < |es| && es[i] == Var(k, Vars(es)[k]);
        assert Clean(es[i]);
      }
    }
  }

  /** `existing_vars.get(key, default_value)`. */
  function Default(vars: map<string, string>, v: Var): string {
    if v.key in vars then vars[v.key] else v.value
  }

  /** `user_input if user_input else current_default`. */
  function Chosen(input: string, default: string): string {
    if input != "" then input else default
  }

  /** The line written for one template variable. */
  function OutputLine(v: Var, vars: map<string, string>, input: string): string {
    v.key + "=" + Chosen(input, Default(vars, v))
  }

  /** The lines for the template variables, each answered by the input at
      the same position. */
  function OutputLines(es: seq<Var>, vars: map<string, string>, inputs: seq<string>): (lines: seq<string>)
    requires |es| <= |inputs|
  {
    seq(|es|, i requires 0 <= i < |es| => OutputLine(es[i], vars, inputs[i]))
  }

  /** What happens to the `.env` file. */
  datatype Outcome = Written(text: string) | Skipped

  /** The template's variables, in template order. */
  function TemplateVars(template: string): seq<Var> {
    Entries(FileLines(template))
  }

  /** `configure_env_file`: a missing template, running out of input
      (`EOFError`) and a template without variables all leave the file
      alone; otherwise the lines are joined by newlines and a final newline
      is added. */
  function Configure(template: Option<string>, existing: Option<string>, inputs: seq<string>): (o: Outcome)
    ensures o.Written? <==> template.Some? && 0 < |TemplateVars(template.value)| <= |inputs|
    ensures o.Written? ==>
      o.text == Terminated(OutputLines(TemplateVars(template.value), ExistingVars(existing), inputs))
  {
    match template
    case None => Skipped
    case Some(text) =>
      var es := TemplateVars(text);
      if |inputs| < |es| then Skipped
      else
        var lines := OutputLines(es, ExistingVars(existing), inputs);
        if |lines| == 0 then Skipped
        else
          JoinThenNewline(lines);
          Written(Join(lines, "\n") + "\n")
  }

  /** What `input()` can return: one line without its newline. */
  predicate Answers(inputs: seq<string>) {
    forall i :: 0 <= i < |inputs| ==> '\n' !in inputs[i]
  }

  /** The chosen value of every template variable is free of newlines, so
      each output line is one line of the file. */
  lemma OutputLinesSingle(es: seq<Var>, existing: Option<string>, inputs: seq<string>)
    requires |es| <= |inputs| && Answers(inputs)
    requires forall i :: 0 <= i < |es| ==> Clean(es[i])
    ensures forall i :: 0 <= i < |es| ==> '\n' !in OutputLines(es, ExistingVars(existing), inputs)[i]
  {
    ExistingVarsClean(existing);
    var vars := ExistingVars(existing);
    forall i | 0 <= i < |es|
      ensures '\n' !in OutputLines(es, vars, inputs)[i]
    {
      var c := Chosen(inputs[i], Default(vars, es[i]));
      assert '\n' !in c;
      assert OutputLines(es, vars, inputs)[i] == es[i].key + "=" + c;
    }
  }

  /** The written file has exactly one `KEY=value` line per template
      variable, in template order: the key from the template, the value the
      user typed, or the default when the answer was empty. */
  lemma WrittenLines(template: string, existing: Option<string>, inputs: seq<string>)
    requires Configure(Some(template), existing, inputs).Written?
    requires Answers(inputs)
    ensures var es := TemplateVars(template);
      var lines := FileLines(Configure(Some(template), existing, inputs).text);
      && |lines| == |es|
      && forall i :: 0 <= i < |es| ==>
           lines[i] == es[i].key + "=" + Chosen(inputs[i], Default(ExistingVars(existing), es[i])) + "\n"
  {
    var es := TemplateVars(template);
    FileEntriesClean(template);
    OutputLinesSingle(es, existing, inputs);
    FileLinesOfTerminated(OutputLines(es, ExistingVars(existing), inputs));
  }

  /** The default offered for a template variable: the existing value when
      the current file defines the key (its last definition), the template
      value otherwise. `es` are the assignments of the current file. */
  lemma DefaultPrefersExisting(es: seq<Var>, v: Var)
    ensures v.key !in Vars(es) <==> forall i :: 0 <= i < |es| ==> es[i].key != v.key
    ensures v.key !in Vars(es) ==> Default(Vars(es), v) == v.value
    ensures forall i :: 0 <= i < |es| && es[i].key == v.key && (forall j :: i < j < |es| ==> es[j].key != v.key) ==>
      Default(Vars(es), v) == es[i].value
  {
    VarsDomain(es);
    VarsLastWins(es);
  }

  /** A kept line: a clean key, `=`, the rest, then only whitespace. */
  lemma ParseKeptLine(key: string, rest: string, post: string)
    requires CleanKey(key) && Trimmed(key + ['='] + rest) && AllSpace(post)
    ensures ParseLine(key + ['='] + rest + post) == Some(Var(key, Strip(rest)))
  {
    var core := key + ['='] + rest;
    assert Strip(core + post) == core by {
      StripSurrounded([], core, post);
      assert [] + core + post == core + post;
    }
    KeyLineKept(key, rest);
    assert SplitOnce(core, '=') == (key, rest) by {
      SplitOnceOf(key, '=', rest);
    }
    assert Strip(key) == key by {
      StripTrimmed(key);
    }
    ParseLineOf(core + post, core, key, rest);
  }

  /** A line that starts with a clean key and `=` is an assignment. */
  lemma KeyLineKept(key: string, rest: string)
    requires CleanKey(key)
    ensures !Ignored(key + ['='] + rest)
  {
    var core := key + ['='] + rest;
    assert core[|key|] == '=';
    if |key| > 0 {
      assert core[0] == key[0];
    }
  }

  /** `ParseLine` on a line whose strip is kept and splits as `key=rest`. */
  lemma ParseLineOf(line: string, l: string, key: string, rest: string)
    requires Strip(line) == l && !Ignored(l)
    requires SplitOnce(l, '=') == (key, rest)
    ensures ParseLine(line) == Some(Var(Strip(key), Strip(rest)))
  {
  }

  lemma Regroup(key: string, a: string, m: string, b: string)
    ensures key + "=" + (a + m + b) + "\n" == key + ['='] + (a + m) + (b + "\n")
  {
  }

  /** A line written as `key=value` reads back as that key with the value
      stripped; a value keeps every `=` after the first. */
  lemma ReadBackLine(key: string, v: string)
    requires CleanKey(key) && '\n' !in v
    ensures ParseLine(key + "=" + v + "\n") == Some(Var(key, Strip(v)))
  {
    var a, m, b := StripParts(v);
    if |m| > 0 {
      ReadBackValue(key, v, a, m, b);
    } else {
      assert v == a + b;
      ReadBackBlank(key, v);
    }
  }

  /** `ReadBackLine` for a value with something besides whitespace. */
  lemma ReadBackValue(key: string, v: string, a: string, m: string, b: string)
    requires CleanKey(key) && AllSpace(a) && AllSpace(b) && Trimmed(m) && |m| > 0
    requires v == a + m + b
    ensures ParseLine(key + "=" + v + "\n") == Some(Var(key, Strip(v)))
  {
    assert key + "=" + (a + m + b) + "\n" == key + ['='] + (a + m) + (b + "\n") by {
      Regroup(key, a, m, b);
    }
    assert Trimmed(key + ['='] + (a + m)) by {
      var core := key + ['='] + (a + m);
      assert core[|core| - 1] == m[|m| - 1];
      assert |key| > 0 ==> core[0] == key[0];
    }
    assert AllSpace(b + "\n");
    assert Strip(a + m) == m by {
      StripSurrounded(a, m, []);
      assert a + m + [] == a + m;
    }
    assert Strip(a + m + b) == m by {
      StripSurrounded(a, m, b);
    }
    ParseKeptLine(key, a + m, b + "\n");
  }

  /** `ReadBackLine` for a value of whitespace only. */
  lemma ReadBackBlank(key: string, v: string)
    requires CleanKey(key) && AllSpace(v)
    ensures ParseLine(key + "=" + v + "\n") == Some(Var(key, Strip(v)))
  {
    BlankLine(key, v);
    BlankKeyTrimmed(key);
    SpaceThenNewline(v);
    BlankStrips(v);
    ParseKeptLine(key, [], v + "\n");
  }

  lemma BlankLine(key: string, v: string)
    ensures key + "=" + v + "\n" == key + ['='] + [] + (v + "\n")
  {
  }

  lemma BlankKeyTrimmed(key: string)
    requires CleanKey(key)
    ensures Trimmed(key + ['='] + [])
  {
    assert |key| > 0 ==> (key + ['='] + [])[0] == key[0];
  }

  lemma SpaceThenNewline(v: string)
    requires AllSpace(v)
    ensures AllSpace(v + "\n")
  {
  }

  /** Whitespace strips to nothing, as does the empty string. */
  lemma BlankStrips(v: string)
    requires AllSpace(v)
    ensures Strip(v) == [] && Strip([]) == []
  {
    StripTrimmed([]);
    StripSurrounded(v, [], []);
    assert v + [] + [] == v;
  }

  /** The template keys are all different. */
  predicate DistinctKeys(es: seq<Var>) {
    forall i, j :: 0 <= i < j < |es| ==> es[i].key != es[j].key
  }

  /** Assignments with distinct keys: each key maps to its own value. */
  lemma VarsOfDistinct(es: seq<Var>)
    requires DistinctKeys(es)
    ensures forall i :: 0 <= i < |es| ==> es[i].key in Vars(es) && Vars(es)[es[i].key] == es[i].value
  {
    VarsLastWins(es);
  }

  /** The value written for the `k`th template variable. */
  function Answer(es: seq<Var>, vars: map<string, string>, inputs: seq<string>, k: nat): string
    requires k < |es| && k < |inputs|
  {
    Chosen(inputs[k], Default(vars, es[k]))
  }

  /** Clean template variables and clean existing values give newline-free
      answers. */
  lemma AnswersClean(es: seq<Var>, vars: map<string, string>, inputs: seq<string>)
    requires |es| <= |inputs| && Answers(inputs)
    requires forall i :: 0 <= i < |es| ==> Clean(es[i])
    requires forall k :: k in vars ==> CleanValue(vars[k])
    ensures forall k :: 0 <= k < |es| ==> CleanKey(es[k].key) && '\n' !in Answer(es, vars, inputs, k)
  {
    forall k | 0 <= k < |es|
      ensures CleanKey(es[k].key) && '\n' !in Answer(es, vars, inputs, k)
    {
      assert Clean(es[k]);
      assert '\n' !in inputs[k];
      if es[k].key in vars {
        assert CleanValue(vars[es[k].key]);
      }
    }
  }

  /** The written text splits into one `key=answer` line per variable. */
  lemma OutputFileLines(es: seq<Var>, vars: map<string, string>, inputs: seq<string>)
    requires |es| <= |inputs|
    requires forall k :: 0 <= k < |es| ==> '\n' !in es[k].key && '\n' !in Answer(es, vars, inputs, k)
    ensures var lines := FileLines(Terminated(OutputLines(es, vars, inputs)));
      && |lines| == |es|
      && forall k :: 0 <= k < |es| ==> lines[k] == es[k].key + "=" + Answer(es, vars, inputs, k) + "\n"
  {
    var out := OutputLines(es, vars, inputs);
    forall k | 0 <= k < |out|
      ensures '\n' !in out[k]
    {
      assert out[k] == es[k].key + "=" + Answer(es, vars, inputs, k);
    }
    FileLinesOfTerminated(out);
  }

  /** Lines written as `key=answer` read back as those keys with the
      answers stripped, in order. */
  lemma ReadBackEntries(lines: seq<string>, es: seq<Var>, vars: map<string, string>, inputs: seq<string>)
    requires |lines| == |es| <= |inputs|
    requires forall k :: 0 <= k < |es| ==> CleanKey(es[k].key) && '\n' !in Answer(es, vars, inputs, k)
    requires forall k :: 0 <= k < |es| ==> lines[k] == es[k].key + "=" + Answer(es, vars, inputs, k) + "\n"
    ensures |Entries(lines)| == |es|
    ensures forall k :: 0 <= k < |es| ==> Entries(lines)[k] == Var(es[k].key, Strip(Answer(es, vars, inputs, k)))
  {
    forall k | 0 <= k < |lines|
      ensures ParseLine(lines[k]) == Some(Var(es[k].key, Strip(Answer(es, vars, inputs, k))))
    {
      ReadBackLine(es[k].key, Answer(es, vars, inputs, k));
    }
    EntriesOfParsed(lines);
  }

  /** The output lines for clean template variables and clean existing
      values, read back, give every template key its stripped answer. */
  lemma ReadBackOutput(es: seq<Var>, vars: map<string, string>, inputs: seq<string>)
    requires |es| <= |inputs| && Answers(inputs) && DistinctKeys(es)
    requires forall i :: 0 <= i < |es| ==> Clean(es[i])
    requires forall k :: k in vars ==> CleanValue(vars[k])
    ensures var back := Vars(Entries(FileLines(Terminated(OutputLines(es, vars, inputs)))));
      && (forall i :: 0 <= i < |es| ==>
            es[i].key in back && back[es[i].key] == Strip(Answer(es, vars, inputs, i)))
      && (forall k :: k in back ==> exists i :: 0 <= i < |es| && es[i].key == k)
  {
    AnswersClean(es, vars, inputs);
    OutputFileLines(es, vars, inputs);
    var lines := FileLines(Terminated(OutputLines(es, vars, inputs)));
    ReadBackEntries(lines, es, vars, inputs);
    ReadBackKeys(Entries(lines), es, vars, inputs);
  }

  lemma ReadBackKeys(back: seq<Var>, es: seq<Var>, vars: map<string, string>, inputs: seq<string>)
    requires |back| == |es| <= |inputs| && DistinctKeys(es)
    requires forall i :: 0 <= i < |es| ==> back[i] == Var(es[i].key, Strip(Answer(es, vars, inputs, i)))
    ensures forall i :: 0 <= i < |es| ==>
      es[i].key in Vars(back) && Vars(back)[es[i].key] == Strip(Answer(es, vars, inputs, i))
    ensures forall k :: k in Vars(back) ==> exists i :: 0 <= i < |es| && es[i].key == k
  {
    assert DistinctKeys(back);
    VarsOfDistinct(back);
    SameKeysSameDomain(back, es);
  }

  /** Assignments with the keys of `es`, in order, define only keys of `es`. */
  lemma SameKeysSameDomain(back: seq<Var>, es: seq<Var>)
    requires |back| == |es| && forall i :: 0 <= i < |es| ==> back[i].key == es[i].key
    ensures forall k :: k in Vars(back) ==> exists i :: 0 <= i < |es| && es[i].key == k
  {
    VarsDomain(back);
    forall k | k in Vars(back)
      ensures exists i :: 0 <= i < |es| && es[i].key == k
    {
      var i :| 0 <= i < |back| && back[i].key == k;
      assert es[i].key == k;
    }
  }

  /** Reading the written file back as the existing file gives every
      template key the (stripped) value that was written for it, and no
      other key: variables only the old file defined are dropped. */
  lemma ReadBack(template: string, existing: Option<string>, inputs: seq<string>)
    requires Configure(Some(template), existing, inputs).Written?
    requires Answers(inputs) && DistinctKeys(TemplateVars(template))
    ensures var es := TemplateVars(template);
      var back := ExistingVars(Some(Configure(Some(template), existing, inputs).text));
      && (forall i :: 0 <= i < |es| ==>
            && es[i].key in back
            && back[es[i].key] == Strip(Chosen(inputs[i], Default(ExistingVars(existing), es[i]))))
      && (forall k :: k in back ==> exists i :: 0 <= i < |es| && es[i].key == k)
  {
    FileEntriesClean(template);
    ExistingVarsClean(existing);
    ReadBackOutput(TemplateVars(template), ExistingVars(existing), inputs);
  }

  /** Running the configurator again on the file it wrote and accepting
      every default rewrites the same file, provided the template keys are
      distinct and the first run's answers carried no surrounding
      whitespace. */
  lemma RerunWithDefaultsIsStable(template: string, existing: Option<string>, inputs: seq<string>,
                                  blanks: seq<string>)
    requires Configure(Some(template), existing, inputs).Written?
    requires Answers(inputs) && DistinctKeys(TemplateVars(template))
    requires forall i :: 0 <= i < |inputs| ==> Trimmed(inputs[i])
    requires |blanks| >= |TemplateVars(template)|
    requires forall i :: 0 <= i < |blanks| ==> blanks[i] == ""
    ensures Configure(Some(template), Some(Configure(Some(template), existing, inputs).text), blanks)
      == Configure(Some(template), existing, inputs)
  {
    var text := Configure(Some(template), existing, inputs).text;
    RerunLines(template, existing, inputs, blanks);
    SameLinesSameOutcome(template, existing, inputs, Some(text), blanks);
  }

  /** The rerun's lines are the first run's lines. */
  lemma RerunLines(template: string, existing: Option<string>, inputs: seq<string>, blanks: seq<string>)
    requires Configure(Some(template), existing, inputs).Written?
    requires Answers(inputs) && DistinctKeys(TemplateVars(template))
    requires forall i :: 0 <= i < |inputs| ==> Trimmed(inputs[i])
    requires |blanks| >= |TemplateVars(template)|
    requires forall i :: 0 <= i < |blanks| ==> blanks[i] == ""
    ensures var es := TemplateVars(template);
      OutputLines(es, ExistingVars(Some(Configure(Some(template), existing, inputs).text)), blanks)
        == OutputLines(es, ExistingVars(existing), inputs)
  {
    var es := TemplateVars(template);
    var vars := ExistingVars(existing);
    assert Configure(Some(template), existing, inputs).text == Terminated(OutputLines(es, vars, inputs));
    FileEntriesClean(template);
    ExistingVarsClean(existing);
    RerunFrom(es, vars, inputs, blanks);
  }

  /** Reading lines back and answering every prompt with an empty line
      gives the same lines, when the chosen values are trimmed. */
  lemma RerunFrom(es: seq<Var>, vars: map<string, string>, inputs: seq<string>, blanks: seq<string>)
    requires |es| <= |inputs| && Answers(inputs) && DistinctKeys(es)
    requires forall i :: 0 <= i < |es| ==> Clean(es[i])
    requires forall k :: k in vars ==> CleanValue(vars[k])
    requires forall i :: 0 <= i < |inputs| ==> Trimmed(inputs[i])
    requires |blanks| >= |es|
    requires forall i :: 0 <= i < |blanks| ==> blanks[i] == ""
    ensures OutputLines(es, Vars(Entries(FileLines(Terminated(OutputLines(es, vars, inputs))))), blanks)
      == OutputLines(es, vars, inputs)
  {
    ReadBackOutput(es, vars, inputs);
    forall i | 0 <= i < |es|
      ensures Trimmed(Answer(es, vars, inputs, i))
    {
      AnswerTrimmed(es, vars, inputs, i);
    }
    RerunOutput(es, vars, Vars(Entries(FileLines(Terminated(OutputLines(es, vars, inputs))))), inputs, blanks);
  }

  /** Two runs on the same template that produce the same lines write the
      same file. */
  lemma SameLinesSameOutcome(template: string, e1: Option<string>, i1: seq<string>,
                             e2: Option<string>, i2: seq<string>)
    requires Configure(Some(template), e1, i1).Written?
    requires |TemplateVars(template)| <= |i2|
    requires OutputLines(TemplateVars(template), ExistingVars(e2), i2)
      == OutputLines(TemplateVars(template), ExistingVars(e1), i1)
    ensures Configure(Some(template), e2, i2) == Configure(Some(template), e1, i1)
  {
  }

  /** Answering every variable with the empty line, against a file that
      holds the stripped answers of a first run, repeats the first run's
      lines when those answers were already trimmed. */
  lemma RerunOutput(es: seq<Var>, vars: map<string, string>, back: map<string, string>,
                    inputs: seq<string>, blanks: seq<string>)
    requires |es| <= |inputs| && |es| <= |blanks|
    requires forall i :: 0 <= i < |blanks| ==> blanks[i] == ""
    requires forall i :: 0 <= i < |es| ==> Trimmed(Answer(es, vars, inputs, i))
    requires forall i :: 0 <= i < |es| ==>
      es[i].key in back && back[es[i].key] == Strip(Answer(es, vars, inputs, i))
    ensures OutputLines(es, back, blanks) == OutputLines(es, vars, inputs)
  {
    var first := OutputLines(es, vars, inputs);
    var second := OutputLines(es, back, blanks);
    forall i | 0 <= i < |es|
      ensures second[i] == first[i]
    {
      StripTrimmed(Answer(es, vars, inputs, i));
      assert second[i] == OutputLine(es[i], back, blanks[i]);
      assert first[i] == OutputLine(es[i], vars, inputs[i]);
    }
  }

  /** Trimmed answers, template values and existing values give a trimmed
      chosen value. */
  lemma AnswerTrimmed(es: seq<Var>, vars: map<string, string>, inputs: seq<string>, i: nat)
    requires i < |es| && i < |inputs| && Trimmed(inputs[i]) && Clean(es[i])
    requires forall k :: k in vars ==> CleanValue(vars[k])
    ensures Trimmed(Answer(es, vars, inputs, i))
  {
    if es[i].key in vars {
      assert CleanValue(vars[es[i].key]);
    }
  }

  /** `example_path.replace('.env.example', '.env')`. */
  function EnvPath(examplePath: string): string {
    ReplaceAll(examplePath, ".env.example", ".env")
  }

  /** For a template found by the recursive `.env.example` search whose directory
      part does not itself contain `.env.example`, the target is the
      `.env` next to it. */
  lemma EnvPathBesideTemplate(dir: string)
    requires forall i :: 0 <= i < |dir| ==> !OccursAt(dir + ".env.example", ".env.example", i)
    ensures EnvPath(dir + ".env.example") == dir + ".env"
  {
    ReplaceAllSuffix(dir, ".env.example", ".env");
  }
}
