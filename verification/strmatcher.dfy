/** The pattern matcher engine (pkg/strmatcher): compilers that turn a
    pattern into a string predicate, and the All / Any combinators.
    Go represents a matcher as a closure; here a matcher is the data the
    closure captures, and `Accepts` applies it. Glob (the gitignore package)
    and regular-expression semantics are uninterpreted: they come in through
    an `Oracle`. */
module StrMatcher {
  import opened Wrappers
  import opened Strs

  /** The behaviour of the pattern engines the model does not interpret. */
  datatype Oracle = Oracle(
    // gitignore pattern p matches the path split into parts (dir flag given), i.e. Match != NoMatch
    globMatch: (string, seq<string>, bool) -> bool,
    // regexp.Compile(p) succeeds
    regexpCompiles: string -> bool,
    // re.MatchString(text): an unanchored search
    regexpMatch: (string, string) -> bool)

  /** Which compiler: CompileExactMatcher, CompileGlobMatcher or CompileRegexpMatcher. */
  datatype Kind = ExactKind | GlobKind | RegexpKind

  datatype Matcher = Exact(opt: string) | Glob(glob: string) | Regexp(re: string)

  datatype CompileError = InvalidRegexp(pattern: string)

  /** filepath.Separator on the platforms the tool targets. */
  const Separator: char := '/'

  /** Whether a path names a directory: it ends in the separator. */
  predicate IsDirPath(path: string) {
    |path| > 0 && path[|path| - 1] == Separator
  }

  /** Calling the matcher closure on `text`. */
  predicate Accepts(m: Matcher, text: string, o: Oracle) {
    match m
    case Exact(opt) => opt == text
    case Glob(g) => o.globMatch(g, Split(text, Separator), IsDirPath(text))
    case Regexp(re) => o.regexpMatch(re, text)
  }

  /** CompileExactMatcher: accepts exactly the option text, and never fails. */
  function CompileExactMatcher(opt: string): (r: Result<Matcher, CompileError>)
    ensures r.Ok?
    ensures forall o: Oracle, text: string :: Accepts(r.value, text, o) <==> text == opt
  {
    Ok(Exact(opt))
  }

  /** CompileGlobMatcher: never fails; the candidate is split on the separator
      and a trailing separator marks it as a directory. */
  function CompileGlobMatcher(pattern: string): (r: Result<Matcher, CompileError>)
    ensures r.Ok?
    ensures forall o: Oracle, text: string ::
      Accepts(r.value, text, o) <==> o.globMatch(pattern, Split(text, Separator), IsDirPath(text))
  {
    Ok(Glob(pattern))
  }

  /** CompileRegexpMatcher: a compile error propagates and no matcher is returned. */
  function CompileRegexpMatcher(pattern: string, o: Oracle): (r: Result<Matcher, CompileError>)
    ensures r.Ok? <==> o.regexpCompiles(pattern)
    ensures r.Err? ==> r.error == InvalidRegexp(pattern)
    ensures r.Ok? ==> forall text :: Accepts(r.value, text, o) <==> o.regexpMatch(pattern, text)
  {
    if o.regexpCompiles(pattern) then Ok(Regexp(pattern)) else Err(InvalidRegexp(pattern))
  }

  /** The compiler selected by `kind`. */
  function Compile(kind: Kind, pattern: string, o: Oracle): (r: Result<Matcher, CompileError>)
    ensures kind != RegexpKind ==> r.Ok?
  {
    match kind
    case ExactKind => CompileExactMatcher(pattern)
    case GlobKind => CompileGlobMatcher(pattern)
    case RegexpKind => CompileRegexpMatcher(pattern, o)
  }

  /** Matchers.All: every matcher accepts; the empty list accepts everything. */
  function All(ms: seq<Matcher>, text: string, o: Oracle): (r: bool)
    ensures r <==> forall i :: 0 <= i < |ms| ==> Accepts(ms[i], text, o)
  {
    if |ms| == 0 then true
    else if !Accepts(ms[0], text, o) then false
    else All(ms[1..], text, o)
  }

  /** Matchers.Any: some matcher accepts; the empty list accepts nothing. */
  function Any(ms: seq<Matcher>, text: string, o: Oracle): (r: bool)
    ensures r <==> exists i :: 0 <= i < |ms| && Accepts(ms[i], text, o)
  {
    if |ms| == 0 then false
    else if Accepts(ms[0], text, o) then true
    else Any(ms[1..], text, o)
  }

  /** The error of NewMatchers: which pattern failed, and why. */
  datatype PatternError = PatternError(index: nat, pattern: string, cause: CompileError)

  /** NewMatchers: compile every pattern, in order, stopping at the first failure. */
  function NewMatchers(kind: Kind, patterns: seq<string>, o: Oracle): (r: Result<seq<Matcher>, PatternError>)
    ensures r.Ok? ==> |r.value| == |patterns|
    ensures r.Ok? ==> forall i :: 0 <= i < |patterns| ==> Compile(kind, patterns[i], o) == Ok(r.value[i])
    ensures r.Err? ==>
      && r.error.index < |patterns|
      && r.error.pattern == patterns[r.error.index]
      && Compile(kind, patterns[r.error.index], o) == Err(r.error.cause)
      && forall j :: 0 <= j < r.error.index ==> Compile(kind, patterns[j], o).Ok?
    ensures r.Err? <==> exists i :: 0 <= i < |patterns| && Compile(kind, patterns[i], o).Err?
  {
    if |patterns| == 0 then Ok([])
    else
      match Compile(kind, patterns[0], o)
      case Err(e) => Err(PatternError(0, patterns[0], e))
      case Ok(m) =>
        match NewMatchers(kind, patterns[1..], o)
        case Err(e) =>
          assert forall j :: 1 <= j < |patterns| ==> patterns[1..][j - 1] == patterns[j];
          Err(PatternError(e.index + 1, e.pattern, e.cause))
        case Ok(ms) =>
          assert forall i :: 1 <= i < |patterns| ==> patterns[1..][i - 1] == patterns[i];
          Ok([m] + ms)
  }

  /** NewExactMatchers: exact compilation never fails, so there is one matcher per option. */
  function NewExactMatchers(options: seq<string>, o: Oracle): (r: seq<Matcher>)
    ensures |r| == |options|
    ensures forall i, text :: 0 <= i < |r| ==> (Accepts(r[i], text, o) <==> text == options[i])
  {
    match NewMatchers(ExactKind, options, o)
    case Ok(ms) => ms
    case Err(_) => []
  }

  /** NewGlobMatchers never fails either. */
  lemma GlobMatchersNeverFail(patterns: seq<string>, o: Oracle)
    ensures NewMatchers(GlobKind, patterns, o).Ok?
  {
  }
}
