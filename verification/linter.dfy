/** The lint rules (internal/pkg/linter/linter.go and config.go): each
    configured rule limits itself to some paths with a glob or a regular
    expression and judges an entry with an expression or a shell command.
    The compilers and the evaluators are parameters: what a glob, a regular
    expression, an expression or a command does with an entry is not part
    of this model. */
module Linter {
  import opened Wrappers
  import opened Strs
  import E = Entries

  /** A configured rule. */
  datatype Rule = Rule(name: string, pathGlob: string, pathRegexp: string, shell: seq<string>, expr: string)

  datatype Config = Config(rules: seq<Rule>)

  /** The verdict of a rule on an entry, or the error evaluating it. */
  type Verdict = Result<bool, string>

  /** What compiles patterns and builds evaluators: glob.Compile,
      regexp.Compile, a govaluate expression over the entry, a command run
      with the entry's variables. */
  datatype Compilers = Compilers(
    glob: string -> Result<string -> bool, string>,
    regexp: string -> Result<string -> bool, string>,
    expr: string -> Result<E.Entry -> Verdict, string>,
    shell: seq<string> -> (E.Entry -> Verdict))

  /** A rule ready to run: which paths it applies to, and its judgement. */
  datatype InternalRule = InternalRule(checkPath: string -> bool, eval: E.Entry -> Verdict)

  datatype InitError =
    | PathPatternsExclusive
    | ShellExprExclusive
    | NoCheck
    | BadPathGlob(msg: string)
    | BadPathRegexp(msg: string)
    | BadExpr(msg: string)

  function AnyPath(path: string): bool {
    true
  }

  /** internalRule.init: the three consistency checks in order, then the
      path pattern and the evaluator are compiled. */
  function InitRule(r: Rule, cs: Compilers): (res: Result<InternalRule, InitError>)
    ensures r.pathGlob != "" && r.pathRegexp != "" ==> res == Err(PathPatternsExclusive)
    ensures !(r.pathGlob != "" && r.pathRegexp != "") && |r.shell| != 0 && r.expr != "" ==>
      res == Err(ShellExprExclusive)
    ensures !(r.pathGlob != "" && r.pathRegexp != "") && |r.shell| == 0 && r.expr == "" ==>
      res == Err(NoCheck)
    ensures res.Ok? <==>
      && (r.pathGlob == "" || r.pathRegexp == "")
      && (|r.shell| == 0 <==> r.expr != "")
      && (r.pathGlob != "" ==> cs.glob(r.pathGlob).Ok?)
      && (r.pathRegexp != "" ==> cs.regexp(r.pathRegexp).Ok?)
      && (r.expr != "" ==> cs.expr(r.expr).Ok?)
    ensures res.Ok? && r.pathGlob == "" && r.pathRegexp == "" ==>
      forall path :: res.value.checkPath(path)
    ensures res.Ok? && r.pathGlob != "" ==> res.value.checkPath == cs.glob(r.pathGlob).value
    ensures res.Ok? && r.pathRegexp != "" ==> res.value.checkPath == cs.regexp(r.pathRegexp).value
    ensures res.Ok? && r.expr != "" ==> res.value.eval == cs.expr(r.expr).value
    ensures res.Ok? && |r.shell| != 0 ==> res.value.eval == cs.shell(r.shell)
  {
    if r.pathGlob != "" && r.pathRegexp != "" then Err(PathPatternsExclusive)
    else if |r.shell| != 0 && r.expr != "" then Err(ShellExprExclusive)
    else if |r.shell| == 0 && r.expr == "" then Err(NoCheck)
    else
      var check: Result<string -> bool, InitError> :=
        if r.pathGlob != "" then
          match cs.glob(r.pathGlob)
          case Err(msg) => Err(BadPathGlob(msg))
          case Ok(m) => Ok(m)
        else if r.pathRegexp != "" then
          match cs.regexp(r.pathRegexp)
          case Err(msg) => Err(BadPathRegexp(msg))
          case Ok(m) => Ok(m)
        else Ok(AnyPath);
      match check
      case Err(e) => Err(e)
      case Ok(checkPath) =>
        if r.expr != "" then
          match cs.expr(r.expr)
          case Err(msg) => Err(BadExpr(msg))
          case Ok(ev) => Ok(InternalRule(checkPath, ev))
        else Ok(InternalRule(checkPath, cs.shell(r.shell)))
  }

  /** A linter: the configuration and one ready rule per configured rule. */
  datatype Linter = Linter(config: Config, rules: seq<InternalRule>)

  predicate Valid(l: Linter) {
    |l.rules| == |l.config.rules|
  }

  /** NewLinter's error: the first rule that does not initialise. */
  datatype NewLinterError = BadRule(index: nat, cause: InitError)

  /** The loop of NewLinter over the rules numbered from `from`. */
  function InitRules(rs: seq<Rule>, cs: Compilers, from: nat): (res: Result<seq<InternalRule>, NewLinterError>)
    ensures res.Ok? ==> |res.value| == |rs|
    ensures res.Ok? ==> forall i :: 0 <= i < |rs| ==> InitRule(rs[i], cs) == Ok(res.value[i])
    ensures res.Ok? <==> forall i :: 0 <= i < |rs| ==> InitRule(rs[i], cs).Ok?
    ensures res.Err? ==>
      && from <= res.error.index < from + |rs|
      && InitRule(rs[res.error.index - from], cs) == Err(res.error.cause)
      && forall j :: 0 <= j < res.error.index - from ==> InitRule(rs[j], cs).Ok?
    decreases |rs|
  {
    if |rs| == 0 then Ok([])
    else
      match InitRule(rs[0], cs)
      case Err(e) => Err(BadRule(from, e))
      case Ok(ir) =>
        match InitRules(rs[1..], cs, from + 1)
        case Err(e) =>
          assert forall j :: 1 <= j < |rs| ==> rs[1..][j - 1] == rs[j];
          Err(e)
        case Ok(irs) =>
          assert forall j :: 1 <= j < |rs| ==> rs[1..][j - 1] == rs[j];
          Ok([ir] + irs)
  }

  /** NewLinter: a linter when every rule initialises, else the first
      failing rule's index and error. */
  function NewLinter(cfg: Config, cs: Compilers): (res: Result<Linter, NewLinterError>)
    ensures res.Ok? ==> Valid(res.value) && res.value.config == cfg
    ensures res.Ok? <==> forall i :: 0 <= i < |cfg.rules| ==> InitRule(cfg.rules[i], cs).Ok?
    ensures res.Ok? ==> forall i :: 0 <= i < |cfg.rules| ==> InitRule(cfg.rules[i], cs) == Ok(res.value.rules[i])
    ensures res.Err? ==>
      && res.error.index < |cfg.rules|
      && InitRule(cfg.rules[res.error.index], cs) == Err(res.error.cause)
      && forall j :: 0 <= j < res.error.index ==> InitRule(cfg.rules[j], cs).Ok?
  {
    match InitRules(cfg.rules, cs, 0)
    case Err(e) => Err(e)
    case Ok(irs) => Ok(Linter(cfg, irs))
  }

  /** Linter.Rule: the i-th configured rule, or none past the last. */
  function RuleAt(l: Linter, i: nat): (r: Option<Rule>)
    ensures r.None? <==> i >= |l.config.rules|
    ensures r.Some? ==> r.value == l.config.rules[i]
  {
    if i >= |l.config.rules| then None else Some(l.config.rules[i])
  }

  /** LintRule: an entry outside the rule's paths passes unjudged; otherwise
      the rule's verdict, or its error. */
  function LintRule(l: Linter, i: nat, ent: E.Entry): (r: Verdict)
    requires i < |l.rules|
    ensures !l.rules[i].checkPath(ent.loc.path) ==> r == Ok(true)
    ensures l.rules[i].checkPath(ent.loc.path) ==> r == l.rules[i].eval(ent)
  {
    var rule := l.rules[i];
    if !rule.checkPath(ent.loc.path) then Ok(true)
    else
      match rule.eval(ent)
      case Err(e) => Err(e)
      case Ok(pass) => Ok(pass)
  }

  /** A rule without a path pattern judges every entry. */
  lemma UnrestrictedRuleJudgesAll(cfg: Config, cs: Compilers, i: nat, ent: E.Entry)
    requires NewLinter(cfg, cs).Ok? && i < |cfg.rules|
    requires cfg.rules[i].pathGlob == "" && cfg.rules[i].pathRegexp == ""
    ensures LintRule(NewLinter(cfg, cs).value, i, ent) == NewLinter(cfg, cs).value.rules[i].eval(ent)
  {
    var l := NewLinter(cfg, cs).value;
    assert InitRule(cfg.rules[i], cs) == Ok(l.rules[i]);
  }

  // ------------------------------------------------------------ rule titles

  /** The prefix of a rule's error, as written: the quoted name, with the
      rule number meant to stand in when the quoted name is empty, which a
      quoted name never is. */
  function TitleAsWritten(r: Rule, i: nat): string {
    var name := Quote(r.name);
    "rule " + (if name == "" then "#" + NatToString(i) else name) + ": "
  }

  /** The prefix of a rule's error: the quoted name, or the rule number for
      a rule without a name. */
  function Title(r: Rule, i: nat): string {
    "rule " + (if r.name == "" then "#" + NatToString(i) else Quote(r.name)) + ": "
  }

  /** As written, an unnamed rule is titled by an empty quoted name, never
      by its number. */
  lemma UnnamedRuleTitleAsWritten(r: Rule, i: nat)
    requires r.name == ""
    ensures TitleAsWritten(r, i) == "rule \"\": "
    ensures TitleAsWritten(r, i) != Title(r, i)
  {
    assert Quote("") == "\"\"";
    var t := Title(r, i);
    assert t[5] == '#';
  }

  /** A control character in a rule's name is escaped in its title, as %q
      does: a newline becomes a backslash and `n`. */
  lemma TitleEscapesNewline(r: Rule, i: nat)
    requires r.name == "a\nb"
    ensures TitleAsWritten(r, i) == "rule \"a\\nb\": "
    ensures Title(r, i) == TitleAsWritten(r, i)
  {
    assert Escape("a\nb") == "a\\nb" by {
      assert Escape("a\nb") == EscapeChar('a') + Escape("\nb");
      assert Escape("\nb") == EscapeChar('\n') + Escape("b");
    }
  }

  /** The corrected title numbers an unnamed rule and otherwise agrees with
      the title as written. */
  lemma TitleNumbersUnnamedRules(r: Rule, i: nat)
    ensures r.name == "" ==> Title(r, i) == "rule #" + NatToString(i) + ": "
    ensures r.name != "" ==> Title(r, i) == TitleAsWritten(r, i)
  {
  }

  // ------------------------------------------------------------ linting

  /** Lint's error: the rule whose evaluation failed, its title and the
      evaluator's message. */
  datatype LintError = LintError(index: nat, title: string, cause: string)

  /** The loop of Lint, with the title an error is given: every rule in
      order; the indices of the rules the entry fails, in increasing order,
      or the first rule's error. */
  method LintTitled(l: Linter, ent: E.Entry, title: (Rule, nat) -> string) returns (r: Result<seq<nat>, LintError>)
    requires Valid(l)
    ensures r.Ok? <==> forall i :: 0 <= i < |l.rules| ==> LintRule(l, i, ent).Ok?
    ensures r.Ok? ==> forall i: nat :: i in r.value <==> i < |l.rules| && LintRule(l, i, ent) == Ok(false)
    ensures r.Ok? ==> forall a, b :: 0 <= a < b < |r.value| ==> r.value[a] < r.value[b]
    ensures r.Err? ==>
      && r.error.index < |l.rules|
      && LintRule(l, r.error.index, ent) == Err(r.error.cause)
      && r.error.title == title(l.config.rules[r.error.index], r.error.index)
      && forall j :: 0 <= j < r.error.index ==> LintRule(l, j, ent).Ok?
  {
    var fails: seq<nat> := [];
    var i := 0;
    while i < |l.rules|
      invariant 0 <= i <= |l.rules|
      invariant forall j :: 0 <= j < i ==> LintRule(l, j, ent).Ok?
      invariant forall j: nat :: j in fails <==> j < i && LintRule(l, j, ent) == Ok(false)
      invariant forall a, b :: 0 <= a < b < |fails| ==> fails[a] < fails[b]
      invariant forall a :: 0 <= a < |fails| ==> fails[a] < i
    {
      var v := LintRule(l, i, ent);
      if v.Err? {
        return Err(LintError(i, title(l.config.rules[i], i), v.error));
      }
      if !v.value {
        fails := fails + [i];
      }
      i := i + 1;
    }
    return Ok(fails);
  }

  /** Lint as written: an erring rule's error is titled by its quoted name,
      which for an unnamed rule is `rule "": `. */
  method Lint(l: Linter, ent: E.Entry) returns (r: Result<seq<nat>, LintError>)
    requires Valid(l)
    ensures r.Ok? <==> forall i :: 0 <= i < |l.rules| ==> LintRule(l, i, ent).Ok?
    ensures r.Ok? ==> forall i: nat :: i in r.value <==> i < |l.rules| && LintRule(l, i, ent) == Ok(false)
    ensures r.Ok? ==> forall a, b :: 0 <= a < b < |r.value| ==> r.value[a] < r.value[b]
    ensures r.Err? ==>
      && r.error.index < |l.rules|
      && LintRule(l, r.error.index, ent) == Err(r.error.cause)
      && r.error.title == TitleAsWritten(l.config.rules[r.error.index], r.error.index)
      && forall j :: 0 <= j < r.error.index ==> LintRule(l, j, ent).Ok?
  {
    r := LintTitled(l, ent, TitleAsWritten);
  }

  /** Lint with the rule number standing in for a missing name: the same
      verdicts and the same erring rule, with the corrected title. */
  method LintCorrected(l: Linter, ent: E.Entry) returns (r: Result<seq<nat>, LintError>)
    requires Valid(l)
    ensures r.Ok? <==> forall i :: 0 <= i < |l.rules| ==> LintRule(l, i, ent).Ok?
    ensures r.Ok? ==> forall i: nat :: i in r.value <==> i < |l.rules| && LintRule(l, i, ent) == Ok(false)
    ensures r.Ok? ==> forall a, b :: 0 <= a < b < |r.value| ==> r.value[a] < r.value[b]
    ensures r.Err? ==>
      && r.error.index < |l.rules|
      && LintRule(l, r.error.index, ent) == Err(r.error.cause)
      && r.error.title == Title(l.config.rules[r.error.index], r.error.index)
      && (l.config.rules[r.error.index].name == "" ==>
            r.error.title == "rule #" + NatToString(r.error.index) + ": ")
      && forall j :: 0 <= j < r.error.index ==> LintRule(l, j, ent).Ok?
  {
    r := LintTitled(l, ent, Title);
    if r.Err? {
      TitleNumbersUnnamedRules(l.config.rules[r.error.index], r.error.index);
    }
  }

  // ------------------------------------------------------ entry variables

  /** The variable an attribute is given to a shell rule: ATTR_ and the key,
      upper-cased (ASCII letters only). */
  function VarName(k: string): (n: string)
    ensures |n| == 5 + |k|
    ensures n[..5] == "ATTR_"
  {
    ToUpper("ATTR_" + k)
  }

  /** The attribute loop of entVars: keys in the order the map yields them;
      a later key overwrites an earlier one with the same variable. */
  function AttrVars(m: map<string, string>, attrs: map<string, string>, order: seq<string>): (r: map<string, string>)
    requires forall k :: k in order ==> k in attrs
    ensures r.Keys == m.Keys + set k | k in order :: VarName(k)
    decreases |order|
  {
    if |order| == 0 then m
    else
      var k := order[0];
      assert forall x :: x in order <==> x == k || x in order[1..];
      AttrVars(m[VarName(k) := attrs[k]], attrs, order[1..])
  }

  /** entVars: NAME, PATH and one variable per attribute; `order` is the
      order the Go map happens to yield its keys in. */
  function EntVars(ent: E.Entry, order: seq<string>): (r: map<string, string>)
    requires forall k :: k in order <==> k in ent.attrs
    ensures r.Keys == {"NAME", "PATH"} + set k | k in ent.attrs :: VarName(k)
  {
    AttrVars(map["NAME" := ent.name, "PATH" := ent.loc.path], ent.attrs, order)
  }

  /** What the attribute loop leaves: the base entries it does not name,
      and for each attribute whose variable no other key shares, its value. */
  lemma {:induction false} AttrVarsValues(m: map<string, string>, attrs: map<string, string>, order: seq<string>)
    requires forall k :: k in order ==> k in attrs
    ensures forall n :: n in m && (forall k :: k in order ==> VarName(k) != n) ==> AttrVars(m, attrs, order)[n] == m[n]
    ensures forall k :: k in order && (forall k2 :: k2 in order && VarName(k2) == VarName(k) ==> k2 == k) ==>
      AttrVars(m, attrs, order)[VarName(k)] == attrs[k]
    decreases |order|
  {
    if |order| > 0 {
      var k := order[0];
      var m' := m[VarName(k) := attrs[k]];
      assert forall x :: x in order <==> x == k || x in order[1..];
      AttrVarsValues(m', attrs, order[1..]);
      forall k1 | k1 in order && (forall k2 :: k2 in order && VarName(k2) == VarName(k1) ==> k2 == k1)
        ensures AttrVars(m, attrs, order)[VarName(k1)] == attrs[k1]
      {
        if k1 !in order[1..] {
          assert k1 == k && VarName(k) in m';
          assert forall k2 :: k2 in order[1..] ==> VarName(k2) != VarName(k1);
        }
      }
    }
  }

  /** entVars names the entry and its path, and gives every attribute whose
      upper-cased key is its own the attribute's value. */
  lemma EntVarsMeaning(ent: E.Entry, order: seq<string>)
    requires forall k :: k in order <==> k in ent.attrs
    ensures EntVars(ent, order)["NAME"] == ent.name
    ensures EntVars(ent, order)["PATH"] == ent.loc.path
    ensures forall k :: k in ent.attrs && (forall k2 :: k2 in ent.attrs && VarName(k2) == VarName(k) ==> k2 == k) ==>
      EntVars(ent, order)[VarName(k)] == ent.attrs[k]
  {
    var base := map["NAME" := ent.name, "PATH" := ent.loc.path];
    AttrVarsValues(base, ent.attrs, order);
    forall k | k in order ensures VarName(k) != "NAME" && VarName(k) != "PATH" {
      assert |VarName(k)| >= 5;
    }
  }
}
