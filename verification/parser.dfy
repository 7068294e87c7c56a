/** The tag parser (internal/pkg/parser/parser.go): the text of one bracketed
    element becomes an Entry. The element is read token by token by a small
    state machine: a prefix of `?type` and `@key[=value]` tokens, the name
    (with an optional `./` or `.` scope prefix), then trailing `key[=value]`
    attributes.

    Tokenisation (text/scanner), strconv.Unquote and filepath.Dir are not
    interpreted: they come in through a `Syntax` record. */
module Parser {
  import opened Wrappers
  import opened Strs
  import opened Attributes
  import L = Locations
  import E = Entries

  /** A token the scanner delivers, or the error it reported while
      scanning it. An error reported while scanning the end of input is
      dropped by ParseElement (it overwrites the variable holding it) and so
      does not appear here. */
  datatype Token = Text(text: string) | Bad(msg: string)

  datatype Syntax = Syntax(
    // the tokens text/scanner yields for an element text, under the
    // identifier rules ParseElement installs
    lex: string -> seq<Token>,
    // strconv.Unquote of a token starting with '"'
    unquote: string -> Option<string>,
    // filepath.Dir
    dir: string -> string)

  // ------------------------------------------------------------- lexical rules

  /** `\w` of Go's regular expressions: ASCII letters, digits and '_'. */
  predicate IsWordChar(c: char) {
    ('a' <= c <= 'z') || ('A' <= c <= 'Z') || ('0' <= c <= '9') || c == '_'
  }

  /** `^[\w_][\w_\:\-\.\/]*$` */
  predicate ValidName(s: string) {
    && |s| > 0 && IsWordChar(s[0])
    && forall i :: 1 <= i < |s| ==> IsWordChar(s[i]) || s[i] in ":-./"
  }

  /** `^[\w_][\w_\:\-]*$` */
  predicate ValidAttrName(s: string) {
    && |s| > 0 && IsWordChar(s[0])
    && forall i :: 1 <= i < |s| ==> IsWordChar(s[i]) || s[i] in ":-"
  }

  /** The search type a `?` suffix or a `search=` value stands for. */
  function SearchType(v: string): (t: Option<string>)
    ensures t.Some? ==> t.value in {"exact", "glob", "regexp"}
    ensures t == Some("exact") <==> v == "" || v == "exact"
    ensures t == Some("glob") <==> v == "g" || v == "gl"
    ensures t == Some("regexp") <==> v == "e" || v == "re"
  {
    match v
    case "" => Some("exact")
    case "exact" => Some("exact")
    case "g" => Some("glob")
    case "gl" => Some("glob")
    case "e" => Some("regexp")
    case "re" => Some("regexp")
    case _ => None
  }

  /** The scope `./` stands for: the element's directory with a trailing
      separator, or none when the directory is "" or ".". */
  function DirScope(dir: string): (s: Option<string>)
    ensures s.None? <==> dir == "" || dir == "."
    ensures s.Some? ==> HasSuffix(s.value, "/") && HasPrefix(s.value, dir)
  {
    if dir == "" || dir == "." then None
    else if dir[|dir| - 1] != '/' then Some(dir + "/")
    else Some(dir)
  }

  // ------------------------------------------------------------ state machine

  datatype ParseError =
    | EmptyElement
    | InvalidAttrName(key: string)
    | AttrAlreadySet(key: string, previous: string)
    | InvalidSearchType(value: string)
    | InvalidQuotes(token: string)
    | InvalidName(name: string)
    | ScanError(msg: string)
    // indexing the first byte of an empty token: a run-time panic in Go
    | IndexOutOfRange

  /** Which state an attribute returns to once its value is read. */
  datatype Back = ToPre | ToPost

  datatype State = Pre | Post | InAttr(key: string, eq: bool, back: Back)

  /** The variables the closures of ParseElement share. */
  datatype Parsing = Parsing(state: State, name: string, attrs: Attrs, search: string)

  function BackState(b: Back): State {
    if b == ToPre then Pre else Post
  }

  /** addAttr: a key must be well formed and not yet set. `scope=.` means
      the element's own path and `scope=./` its directory (or nothing at
      the root); a search type is normalised and also remembered. */
  function AddAttr(p: Parsing, k: string, v: string, path: string, syn: Syntax): (r: Result<Parsing, ParseError>)
    ensures !ValidAttrName(k) ==> r == Err(InvalidAttrName(k))
    ensures ValidAttrName(k) && k in p.attrs ==> r == Err(AttrAlreadySet(k, p.attrs[k]))
    ensures r.Ok? ==> ValidAttrName(k) && k !in p.attrs
    ensures r.Ok? ==> r.value.state == p.state && r.value.name == p.name
    ensures r.Ok? ==> forall x :: x in p.attrs ==> x in r.value.attrs && r.value.attrs[x] == p.attrs[x]
    ensures r.Ok? ==> r.value.attrs.Keys <= p.attrs.Keys + {k}
    ensures k == "search" ==>
      (r.Ok? <==> ValidAttrName(k) && k !in p.attrs && SearchType(v).Some?)
    ensures k == "search" && r.Ok? ==>
      && r.value.search == SearchType(v).value
      && "search" in r.value.attrs && r.value.attrs["search"] == r.value.search
    ensures k != "search" && r.Ok? ==> r.value.search == p.search
    ensures k == "scope" && v == "." && r.Ok? ==> "scope" in r.value.attrs && r.value.attrs["scope"] == path
    ensures k == "scope" && v == "./" && r.Ok? ==>
      ("scope" in r.value.attrs <==> DirScope(syn.dir(path)).Some?)
    ensures k == "scope" && v == "./" && r.Ok? && "scope" in r.value.attrs ==>
      r.value.attrs["scope"] == DirScope(syn.dir(path)).value
    ensures k != "search" && !(k == "scope" && v in {".", "./"}) && r.Ok? ==>
      k in r.value.attrs && r.value.attrs[k] == v
  {
    if !ValidAttrName(k) then Err(InvalidAttrName(k))
    else if k in p.attrs then Err(AttrAlreadySet(k, p.attrs[k]))
    else if k == "scope" && v == "." then Ok(p.(attrs := p.attrs[k := path]))
    else if k == "scope" && v == "./" then
      match DirScope(syn.dir(path))
      case None => Ok(p)
      case Some(s) => Ok(p.(attrs := p.attrs[k := s]))
    else if k == "search" then
      match SearchType(v)
      case None => Err(InvalidSearchType(v))
      case Some(t) => Ok(p.(attrs := p.attrs[k := t], search := t))
    else Ok(p.(attrs := p.attrs[k := v]))
  }

  /** The first character of a token. As written, an empty token cannot be
      indexed (`guarded` false); the corrected parser treats it as not
      starting with any of the characters it tests for. */
  function FirstIs(tok: string, c: char, guarded: bool): Result<bool, ParseError> {
    if |tok| > 0 then Ok(tok[0] == c)
    else if guarded then Ok(false)
    else Err(IndexOutOfRange)
  }

  /** A token starting with '"' is unquoted. */
  function Unquoted(tok: string, syn: Syntax, guarded: bool): Result<string, ParseError> {
    var quoted :- FirstIs(tok, '"', guarded);
    if !quoted then Ok(tok)
    else
      match syn.unquote(tok)
      case None => Err(InvalidQuotes(tok))
      case Some(t) => Ok(t)
  }

  /** The optional scope prefix of the name token: `./` or `.`. */
  function ScopePrefix(p: Parsing, tok: string, path: string, syn: Syntax, guarded: bool)
    : Result<(Parsing, string), ParseError>
  {
    if HasPrefix(tok, "./") then
      var q :- AddAttr(p, "scope", "./", path, syn);
      Ok((q, tok[2..]))
    else
      var dot :- FirstIs(tok, '.', guarded);
      if dot then
        var q :- AddAttr(p, "scope", ".", path, syn);
        Ok((q, tok[1..]))
      else Ok((p, tok))
  }

  /** The `pre` state: `?type`, `@key`, or the name. */
  function PreStep(p: Parsing, tok: string, path: string, syn: Syntax, guarded: bool): Result<Parsing, ParseError> {
    var question :- FirstIs(tok, '?', guarded);
    if question then AddAttr(p, "search", tok[1..], path, syn)
    else
      var at :- FirstIs(tok, '@', guarded);
      if at then Ok(p.(state := InAttr(tok[1..], false, ToPre)))
      else
        var (q, rest) :- ScopePrefix(p, tok, path, syn, guarded);
        var name :- Unquoted(rest, syn, guarded);
        if (q.search == "" || q.search == "exact") && !ValidName(name) then Err(InvalidName(name))
        else Ok(q.(name := name, state := Post))
  }

  /** One token in the current state. An attribute whose next token is not
      "=" is stored without a value and the token goes to the state the
      attribute returns to. */
  function Step(p: Parsing, tok: string, path: string, syn: Syntax, guarded: bool): Result<Parsing, ParseError>
    decreases if p.state.InAttr? then 1 else 0
  {
    match p.state
    case Pre => PreStep(p, tok, path, syn, guarded)
    case Post => Ok(p.(state := InAttr(tok, false, ToPost)))
    case InAttr(k, eq, back) =>
      var t :- Unquoted(tok, syn, guarded);
      if !eq then
        if t == "=" then Ok(p.(state := InAttr(k, true, back)))
        else
          var q :- AddAttr(p, k, "", path, syn);
          Step(q.(state := BackState(back)), t, path, syn, guarded)
      else
        var q :- AddAttr(p, k, t, path, syn);
        Ok(q.(state := BackState(back)))
  }

  /** The end of the element: nothing was read, the name was read, or an
      attribute is still waiting for its value (it gets ""). */
  function Finish(p: Parsing, path: string, syn: Syntax): Result<Parsing, ParseError> {
    match p.state
    case Pre => Err(EmptyElement)
    case Post => Ok(p)
    case InAttr(k, _, _) => AddAttr(p, k, "", path, syn)
  }

  /** The scan loop: a scanner error or a failing state stops it. */
  function Run(toks: seq<Token>, p: Parsing, path: string, syn: Syntax, guarded: bool): Result<Parsing, ParseError>
    decreases |toks|
  {
    if |toks| == 0 then Ok(p)
    else
      match toks[0]
      case Bad(msg) => Err(ScanError(msg))
      case Text(t) =>
        var q :- Step(p, t, path, syn, guarded);
        Run(toks[1..], q, path, syn, guarded)
  }

  const Start: Parsing := Parsing(Pre, "", map[], "")

  function ParseWith(elem: L.RawElement, syn: Syntax, guarded: bool): Result<E.Entry, ParseError> {
    var p :- Run(syn.lex(elem.text), Start, elem.loc.path, syn, guarded);
    var q :- Finish(p, elem.loc.path, syn);
    Ok(E.Entry(q.name, q.attrs, elem.loc))
  }

  /** ParseElement as written: a name token that is empty once its scope
      prefix is removed (`.` or `./`), or an empty quoted token passed back
      from an attribute, is indexed and panics. */
  function ParseElementAsWritten(elem: L.RawElement, syn: Syntax): (r: Result<E.Entry, ParseError>)
    ensures r.Ok? ==> r.value.loc == elem.loc
  {
    ParseWith(elem, syn, false)
  }

  /** ParseElement, with the empty-token case reported as an invalid name
      instead of a panic. */
  function ParseElement(elem: L.RawElement, syn: Syntax): (r: Result<E.Entry, ParseError>)
    ensures r.Ok? ==> r.value.loc == elem.loc
    ensures r != Err(IndexOutOfRange)
  {
    NeverOutOfRange(elem, syn);
    ParseWith(elem, syn, true)
  }

  // ------------------------------------------------------- the correction

  lemma StepGuardedNeverOutOfRange(p: Parsing, tok: string, path: string, syn: Syntax)
    ensures Step(p, tok, path, syn, true) != Err(IndexOutOfRange)
    decreases if p.state.InAttr? then 1 else 0
  {
    match p.state
    case Pre =>
    case Post =>
    case InAttr(k, eq, back) =>
      var t := Unquoted(tok, syn, true);
      if t.Ok? && !eq && t.value != "=" {
        var q := AddAttr(p, k, "", path, syn);
        if q.Ok? {
          StepGuardedNeverOutOfRange(q.value.(state := BackState(back)), t.value, path, syn);
        }
      }
  }

  lemma {:induction false} RunGuardedNeverOutOfRange(toks: seq<Token>, p: Parsing, path: string, syn: Syntax)
    ensures Run(toks, p, path, syn, true) != Err(IndexOutOfRange)
    decreases |toks|
  {
    if |toks| > 0 && toks[0].Text? {
      StepGuardedNeverOutOfRange(p, toks[0].text, path, syn);
      var q := Step(p, toks[0].text, path, syn, true);
      if q.Ok? {
        RunGuardedNeverOutOfRange(toks[1..], q.value, path, syn);
      }
    }
  }

  lemma NeverOutOfRange(elem: L.RawElement, syn: Syntax)
    ensures ParseWith(elem, syn, true) != Err(IndexOutOfRange)
  {
    RunGuardedNeverOutOfRange(syn.lex(elem.text), Start, elem.loc.path, syn);
  }

  /** Where the written step does not panic, the corrected one does the same. */
  lemma StepAgrees(p: Parsing, tok: string, path: string, syn: Syntax)
    requires Step(p, tok, path, syn, false) != Err(IndexOutOfRange)
    ensures Step(p, tok, path, syn, true) == Step(p, tok, path, syn, false)
    decreases if p.state.InAttr? then 1 else 0
  {
    match p.state
    case Pre =>
    case Post =>
    case InAttr(k, eq, back) =>
      var t := Unquoted(tok, syn, false);
      if t.Ok? && !eq && t.value != "=" {
        var q := AddAttr(p, k, "", path, syn);
        if q.Ok? {
          StepAgrees(q.value.(state := BackState(back)), t.value, path, syn);
        }
      }
  }

  lemma {:induction false} RunAgrees(toks: seq<Token>, p: Parsing, path: string, syn: Syntax)
    requires Run(toks, p, path, syn, false) != Err(IndexOutOfRange)
    ensures Run(toks, p, path, syn, true) == Run(toks, p, path, syn, false)
    decreases |toks|
  {
    if |toks| > 0 && toks[0].Text? {
      var q := Step(p, toks[0].text, path, syn, false);
      StepAgrees(p, toks[0].text, path, syn);
      if q.Ok? {
        RunAgrees(toks[1..], q.value, path, syn);
      }
    }
  }

  /** The correction changes nothing but the panic: wherever the parser as
      written returns, the corrected one returns the same. */
  lemma CorrectedAgreesWithWritten(elem: L.RawElement, syn: Syntax)
    requires ParseElementAsWritten(elem, syn) != Err(IndexOutOfRange)
    ensures ParseElement(elem, syn) == ParseElementAsWritten(elem, syn)
  {
    RunAgrees(syn.lex(elem.text), Start, elem.loc.path, syn);
  }

  /** A bare `.` (or `./`) as the name token: the written parser indexes an
      empty name and panics; the corrected one reports an invalid name. */
  lemma DotAloneIndexesEmptyName(loc: L.Loc, syn: Syntax)
    requires syn.lex(".") == [Text(".")]
    ensures ParseElementAsWritten(L.RawElement(".", loc), syn) == Err(IndexOutOfRange)
    ensures ParseElement(L.RawElement(".", loc), syn) == Err(InvalidName(""))
  {
  }

  // ------------------------------------------------------------ invariants

  /** What every reachable parser state satisfies: the search variable
      mirrors the "search" attribute and holds a known type; every key is a
      well-formed attribute name; a name that is set is well formed unless
      the search is a glob or regexp one. */
  predicate Inv(p: Parsing) {
    && p.search == Lookup(p.attrs, "search")
    && p.search in {"", "exact", "glob", "regexp"}
    && ("search" in p.attrs ==> p.search != "")
    && (forall k :: k in p.attrs ==> ValidAttrName(k))
    && (p.name != "" ==> ValidName(p.name) || p.search in {"glob", "regexp"})
  }

  lemma AddAttrKeepsInv(p: Parsing, k: string, v: string, path: string, syn: Syntax)
    requires Inv(p)
    requires AddAttr(p, k, v, path, syn).Ok?
    ensures Inv(AddAttr(p, k, v, path, syn).value)
  {
    var q := AddAttr(p, k, v, path, syn).value;
    if k == "search" {
      assert p.search == "";
    } else {
      assert Lookup(q.attrs, "search") == Lookup(p.attrs, "search");
    }
  }

  lemma StepKeepsInv(p: Parsing, tok: string, path: string, syn: Syntax)
    requires Inv(p)
    requires Step(p, tok, path, syn, true).Ok?
    ensures Inv(Step(p, tok, path, syn, true).value)
    decreases if p.state.InAttr? then 1 else 0
  {
    match p.state
    case Pre =>
      if FirstIs(tok, '?', true) == Ok(true) {
        AddAttrKeepsInv(p, "search", tok[1..], path, syn);
      } else if FirstIs(tok, '@', true) == Ok(false) {
        if HasPrefix(tok, "./") {
          AddAttrKeepsInv(p, "scope", "./", path, syn);
        } else if FirstIs(tok, '.', true) == Ok(true) {
          AddAttrKeepsInv(p, "scope", ".", path, syn);
        }
      }
    case Post =>
    case InAttr(k, eq, back) =>
      var t := Unquoted(tok, syn, true).value;
      if !eq && t != "=" {
        AddAttrKeepsInv(p, k, "", path, syn);
        var q := AddAttr(p, k, "", path, syn).value;
        StepKeepsInv(q.(state := BackState(back)), t, path, syn);
      } else if eq {
        AddAttrKeepsInv(p, k, t, path, syn);
      }
  }

  lemma {:induction false} RunKeepsInv(toks: seq<Token>, p: Parsing, path: string, syn: Syntax)
    requires Inv(p)
    requires Run(toks, p, path, syn, true).Ok?
    ensures Inv(Run(toks, p, path, syn, true).value)
    decreases |toks|
  {
    if |toks| > 0 {
      StepKeepsInv(p, toks[0].text, path, syn);
      RunKeepsInv(toks[1..], Step(p, toks[0].text, path, syn, true).value, path, syn);
    }
  }

  /** A parsed entry: every key is a well-formed attribute name; a search
      attribute holds a normalised type; and a non-empty name is a
      well-formed name unless the search is a glob or regexp one. */
  lemma ParsedEntryIsWellFormed(elem: L.RawElement, syn: Syntax)
    requires ParseElement(elem, syn).Ok?
    ensures var e := ParseElement(elem, syn).value;
      && (forall k :: k in e.attrs ==> ValidAttrName(k))
      && ("search" in e.attrs ==> e.attrs["search"] in {"exact", "glob", "regexp"})
      && (e.name != "" && Lookup(e.attrs, "search") !in {"glob", "regexp"} ==> ValidName(e.name))
  {
    var path := elem.loc.path;
    RunKeepsInv(syn.lex(elem.text), Start, path, syn);
    var p := Run(syn.lex(elem.text), Start, path, syn, true).value;
    if p.state.InAttr? {
      AddAttrKeepsInv(p, p.state.key, "", path, syn);
    }
  }

  // ------------------------------------------------------------- elements

  datatype ElementError = ElementError(text: string, loc: L.Loc, cause: ParseError)

  /** ParseElements: every element, in order; the first failure aborts the
      whole list. */
  function ParseElements(elems: seq<L.RawElement>, syn: Syntax): (r: Result<seq<E.Entry>, ElementError>)
    ensures r.Ok? ==> |r.value| == |elems|
    ensures r.Ok? ==> forall i :: 0 <= i < |elems| ==> ParseElement(elems[i], syn) == Ok(r.value[i])
  {
    if |elems| == 0 then Ok([])
    else
      match ParseElement(elems[0], syn)
      case Err(cause) => Err(ElementError(elems[0].text, elems[0].loc, cause))
      case Ok(e) =>
        match ParseElements(elems[1..], syn)
        case Err(err) => Err(err)
        case Ok(es) =>
          assert forall j :: 1 <= j < |elems| ==> elems[1..][j - 1] == elems[j];
          Ok([e] + es)
  }

  /** The list fails exactly when some element fails, and then it reports
      the first failing element with its text, location and cause. */
  lemma {:induction false} ParseElementsFails(elems: seq<L.RawElement>, syn: Syntax)
    ensures ParseElements(elems, syn).Ok? <==> forall i :: 0 <= i < |elems| ==> ParseElement(elems[i], syn).Ok?
    ensures var r := ParseElements(elems, syn);
      r.Err? ==> exists i :: 0 <= i < |elems| && FirstFailure(elems, syn, i)
                   && r.error == ElementError(elems[i].text, elems[i].loc, ParseElement(elems[i], syn).error)
    decreases |elems|
  {
    if |elems| > 0 && ParseElement(elems[0], syn).Ok? {
      var rest := elems[1..];
      ParseElementsFails(rest, syn);
      assert forall j :: 1 <= j < |elems| ==> rest[j - 1] == elems[j];
      if ParseElements(rest, syn).Err? {
        var i :| 0 <= i < |rest| && FirstFailure(rest, syn, i)
          && ParseElements(rest, syn).error == ElementError(rest[i].text, rest[i].loc, ParseElement(rest[i], syn).error);
        assert FirstFailure(elems, syn, i + 1);
      }
    } else if |elems| > 0 {
      assert FirstFailure(elems, syn, 0);
    }
  }

  /** Element i fails and every element before it parses. */
  predicate FirstFailure(elems: seq<L.RawElement>, syn: Syntax, i: nat)
    requires i < |elems|
  {
    ParseElement(elems[i], syn).Err? && forall j :: 0 <= j < i ==> ParseElement(elems[j], syn).Ok?
  }
}
