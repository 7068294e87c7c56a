/** The parser's documented cases (internal/pkg/parser/parser_test.go),
    each stated for any tokeniser, unquoting and directory function that
    behave on the case's text the way Go's do. */
module ParserVectors {
  import opened Wrappers
  import Strs
  import L = Locations
  import E = Entries
  import opened Parser

  function At(path: string): L.Loc {
    L.Loc(path, 0, 0, 0)
  }

  function Elem(text: string, path: string): L.RawElement {
    L.RawElement(text, At(path))
  }

  /** One scan-loop iteration whose step succeeds. */
  lemma Then(toks: seq<Token>, p: Parsing, q: Parsing, path: string, syn: Syntax)
    requires |toks| > 0 && toks[0].Text? && Step(p, toks[0].text, path, syn, true) == Ok(q)
    ensures Run(toks, p, path, syn, true) == Run(toks[1..], q, path, syn, true)
  {
  }

  // The steps the cases below are made of, each proved once.

  lemma AtStep(p: Parsing, k: string, path: string, syn: Syntax)
    requires p.state == Pre
    ensures Step(p, "@" + k, path, syn, true) == Ok(p.(state := InAttr(k, false, ToPre)))
  {
    assert ("@" + k)[1..] == k;
  }

  lemma NameStep(p: Parsing, tok: string, path: string, syn: Syntax)
    requires p.state == Pre && p.search == ""
    requires ValidName(tok) && tok[0] != '.'
    ensures Step(p, tok, path, syn, true) == Ok(p.(name := tok, state := Post))
  {
  }

  lemma KeyStep(p: Parsing, k: string, path: string, syn: Syntax)
    requires p.state == Post
    ensures Step(p, k, path, syn, true) == Ok(p.(state := InAttr(k, false, ToPost)))
  {
  }

  lemma EqStep(p: Parsing, path: string, syn: Syntax)
    requires p.state.InAttr? && !p.state.eq
    ensures Step(p, "=", path, syn, true) == Ok(p.(state := p.state.(eq := true)))
  {
  }

  /** A value for an ordinary key; `v` is what the token unquotes to. */
  lemma ValueStep(p: Parsing, tok: string, v: string, path: string, syn: Syntax)
    requires p.state.InAttr? && p.state.eq
    requires |tok| > 0
    requires if tok[0] == '"' then syn.unquote(tok) == Some(v) else v == tok
    requires ValidAttrName(p.state.key) && p.state.key !in p.attrs
    requires p.state.key != "search" && p.state.key != "scope"
    ensures Step(p, tok, path, syn, true)
         == Ok(p.(attrs := p.attrs[p.state.key := v], state := BackState(p.state.back)))
  {
  }

  /** A value for the scope key. */
  lemma ScopeValueStep(p: Parsing, tok: string, v: string, path: string, syn: Syntax)
    requires p.state.InAttr? && p.state.eq && p.state.key == "scope"
    requires |tok| > 0
    requires if tok[0] == '"' then syn.unquote(tok) == Some(v) else v == tok
    requires "scope" !in p.attrs
    requires v == "." || (v == "./" && DirScope(syn.dir(path)).Some?)
    ensures Step(p, tok, path, syn, true)
         == Ok(p.(attrs := p.attrs["scope" := if v == "." then path else DirScope(syn.dir(path)).value],
                  state := BackState(p.state.back)))
  {
    assert ValidAttrName("scope");
  }

  /** A key with no value, then the name. */
  lemma BareKeyThenName(p: Parsing, tok: string, path: string, syn: Syntax)
    requires p.state.InAttr? && !p.state.eq && p.state.back == ToPre
    requires ValidAttrName(p.state.key) && p.state.key !in p.attrs
    requires p.state.key != "search" && p.state.key != "scope" && p.search == ""
    requires ValidName(tok) && tok[0] != '.'
    ensures Step(p, tok, path, syn, true)
         == Ok(p.(attrs := p.attrs[p.state.key := ""], name := tok, state := Post))
  {
  }

  lemma SearchStep(p: Parsing, s: string, path: string, syn: Syntax)
    requires p.state == Pre && "search" !in p.attrs && SearchType(s).Some?
    ensures Step(p, "?" + s, path, syn, true)
         == Ok(p.(attrs := p.attrs["search" := SearchType(s).value], search := SearchType(s).value))
  {
    assert ("?" + s)[1..] == s;
    assert ValidAttrName("search");
  }

  /** A quoted name after a glob or regexp search type, taken as it unquotes. */
  lemma PatternNameStep(p: Parsing, tok: string, v: string, path: string, syn: Syntax)
    requires p.state == Pre && (p.search == "glob" || p.search == "regexp")
    requires |tok| > 0 && tok[0] == '"' && syn.unquote(tok) == Some(v)
    ensures Step(p, tok, path, syn, true) == Ok(p.(name := v, state := Post))
  {
    assert !Strs.HasPrefix(tok, "./");
  }

  /** An empty element is an error. */
  lemma EmptyIsError(syn: Syntax)
    requires syn.lex("") == []
    ensures ParseElement(Elem("", "dir/file"), syn) == Err(EmptyElement)
  {
  }

  /** A leading `?` with an unknown type is an error, whatever follows. */
  lemma UnknownSearchType(text: string, s: string, path: string, syn: Syntax)
    requires |syn.lex(text)| > 0 && syn.lex(text)[0] == Text("?" + s)
    requires SearchType(s).None?
    ensures ParseElement(Elem(text, path), syn) == Err(InvalidSearchType(s))
  {
    assert ("?" + s)[1..] == s;
    assert Step(Start, "?" + s, path, syn, true) == Err(InvalidSearchType(s));
  }

  lemma PlainName(syn: Syntax)
    requires syn.lex("meow") == [Text("meow")]
    ensures ParseElement(Elem("meow", "dir/file"), syn) == Ok(E.Entry("meow", map[], At("dir/file")))
  {
    assert ValidName("meow");
    Then(syn.lex("meow"), Start, Parsing(Post, "meow", map[], ""), "dir/file", syn);
  }

  /** `.name` scopes the tag to its own file. */
  lemma DotName(syn: Syntax)
    requires syn.lex(".meow") == [Text(".meow")]
    ensures ParseElement(Elem(".meow", "dir/file"), syn)
         == Ok(E.Entry("meow", map["scope" := "dir/file"], At("dir/file")))
  {
    assert ".meow"[1..] == "meow";
    assert ValidName("meow") && ValidAttrName("scope");
    Then(syn.lex(".meow"), Start, Parsing(Post, "meow", map["scope" := "dir/file"], ""), "dir/file", syn);
  }

  /** `./name` scopes the tag to its directory. */
  lemma DotSlashName(syn: Syntax)
    requires syn.lex("./meow") == [Text("./meow")]
    requires syn.dir("dir/file") == "dir"
    ensures ParseElement(Elem("./meow", "dir/file"), syn)
         == Ok(E.Entry("meow", map["scope" := "dir/"], At("dir/file")))
  {
    assert "./meow"[2..] == "meow";
    assert ValidName("meow") && ValidAttrName("scope");
    assert "dir"[2] == 'r' && "dir" + "/" == "dir/";
    assert DirScope("dir") == Some("dir/");
    Then(syn.lex("./meow"), Start, Parsing(Post, "meow", map["scope" := "dir/"], ""), "dir/file", syn);
  }

  /** At the root directory `/` the scope is "/" itself. */
  lemma DotSlashAtRoot(syn: Syntax)
    requires syn.lex("./meow") == [Text("./meow")]
    requires syn.dir("/") == "/"
    ensures ParseElement(Elem("./meow", "/"), syn)
         == Ok(E.Entry("meow", map["scope" := "/"], At("/")))
  {
    assert "./meow"[2..] == "meow";
    assert ValidName("meow") && ValidAttrName("scope");
    Then(syn.lex("./meow"), Start, Parsing(Post, "meow", map["scope" := "/"], ""), "/", syn);
  }

  /** A file in the working directory gets no scope at all. */
  lemma DotSlashInWorkingDir(syn: Syntax)
    requires syn.lex("./meow") == [Text("./meow")]
    requires syn.dir("some_file_at_root") == "."
    ensures ParseElement(Elem("./meow", "some_file_at_root"), syn)
         == Ok(E.Entry("meow", map[], At("some_file_at_root")))
  {
    assert "./meow"[2..] == "meow";
    assert ValidName("meow") && ValidAttrName("scope");
    Then(syn.lex("./meow"), Start, Parsing(Post, "meow", map[], ""), "some_file_at_root", syn);
  }

  /** Bare keys, before and after the name, have empty values. */
  lemma BareKeys(syn: Syntax)
    requires syn.lex("@attr1 meow attr2") == [Text("@attr1"), Text("meow"), Text("attr2")]
    ensures ParseElement(Elem("@attr1 meow attr2", "dir/file"), syn)
         == Ok(E.Entry("meow", map["attr1" := "", "attr2" := ""], At("dir/file")))
  {
    var path, toks := "dir/file", syn.lex("@attr1 meow attr2");
    assert ValidName("meow") && ValidAttrName("attr1") && ValidAttrName("attr2");
    var p1 := Parsing(InAttr("attr1", false, ToPre), "", map[], "");
    var p2 := Parsing(Post, "meow", map["attr1" := ""], "");
    var p3 := Parsing(InAttr("attr2", false, ToPost), "meow", map["attr1" := ""], "");
    AtStep(Start, "attr1", path, syn);
    Then(toks, Start, p1, path, syn);
    BareKeyThenName(p1, "meow", path, syn);
    Then(toks[1..], p1, p2, path, syn);
    KeyStep(p2, "attr2", path, syn);
    Then(toks[2..], p2, p3, path, syn);
    assert toks[2..][1..] == [];
  }

  /** Values may be quoted. */
  lemma QuotedValue(syn: Syntax)
    requires syn.lex("@who=midnight @when=\"now and then\" meow")
          == [Text("@who"), Text("="), Text("midnight"), Text("@when"), Text("="),
              Text("\"now and then\""), Text("meow")]
    requires syn.unquote("\"now and then\"") == Some("now and then")
    ensures ParseElement(Elem("@who=midnight @when=\"now and then\" meow", "dir/file"), syn)
         == Ok(E.Entry("meow", map["who" := "midnight", "when" := "now and then"], At("dir/file")))
  {
    var path, toks := "dir/file", syn.lex("@who=midnight @when=\"now and then\" meow");
    assert ValidAttrName("who");
    var a1 := map["who" := "midnight"];
    var p1 := Parsing(InAttr("who", false, ToPre), "", map[], "");
    var p2 := Parsing(InAttr("who", true, ToPre), "", map[], "");
    var p3 := Parsing(Pre, "", a1, "");
    AtStep(Start, "who", path, syn);
    Then(toks, Start, p1, path, syn);
    EqStep(p1, path, syn);
    Then(toks[1..], p1, p2, path, syn);
    ValueStep(p2, "midnight", "midnight", path, syn);
    Then(toks[2..], p2, p3, path, syn);
    QuotedValueRest(toks[3..], syn);
  }

  lemma QuotedValueRest(toks: seq<Token>, syn: Syntax)
    requires toks == [Text("@when"), Text("="), Text("\"now and then\""), Text("meow")]
    requires syn.unquote("\"now and then\"") == Some("now and then")
    ensures Run(toks, Parsing(Pre, "", map["who" := "midnight"], ""), "dir/file", syn, true)
         == Ok(Parsing(Post, "meow", map["who" := "midnight", "when" := "now and then"], ""))
  {
    var path := "dir/file";
    assert ValidName("meow") && ValidAttrName("when");
    var a1 := map["who" := "midnight"];
    var a2 := a1["when" := "now and then"];
    var p3 := Parsing(Pre, "", a1, "");
    var p4 := Parsing(InAttr("when", false, ToPre), "", a1, "");
    var p5 := Parsing(InAttr("when", true, ToPre), "", a1, "");
    var p6 := Parsing(Pre, "", a2, "");
    var p7 := Parsing(Post, "meow", a2, "");
    AtStep(p3, "when", path, syn);
    Then(toks, p3, p4, path, syn);
    EqStep(p4, path, syn);
    Then(toks[1..], p4, p5, path, syn);
    ValueStep(p5, "\"now and then\"", "now and then", path, syn);
    Then(toks[2..], p5, p6, path, syn);
    NameStep(p6, "meow", path, syn);
    Then(toks[3..], p6, p7, path, syn);
    assert toks[3..][1..] == [];
  }

  /** A key set before the name cannot be set again after it. */
  lemma DuplicateKey(syn: Syntax)
    requires syn.lex("@who=zumi meow who=midnight when=now")
          == [Text("@who"), Text("="), Text("zumi"), Text("meow"), Text("who"), Text("="),
              Text("midnight"), Text("when"), Text("="), Text("now")]
    ensures ParseElement(Elem("@who=zumi meow who=midnight when=now", "dir/file"), syn)
         == Err(AttrAlreadySet("who", "zumi"))
  {
    var path, toks := "dir/file", syn.lex("@who=zumi meow who=midnight when=now");
    assert ValidAttrName("who");
    var a1 := map["who" := "zumi"];
    var p1 := Parsing(InAttr("who", false, ToPre), "", map[], "");
    var p2 := Parsing(InAttr("who", true, ToPre), "", map[], "");
    var p3 := Parsing(Pre, "", a1, "");
    AtStep(Start, "who", path, syn);
    Then(toks, Start, p1, path, syn);
    EqStep(p1, path, syn);
    Then(toks[1..], p1, p2, path, syn);
    ValueStep(p2, "zumi", "zumi", path, syn);
    Then(toks[2..], p2, p3, path, syn);
    DuplicateKeyRest(toks[3..], syn);
  }

  lemma DuplicateKeyRest(toks: seq<Token>, syn: Syntax)
    requires toks == [Text("meow"), Text("who"), Text("="), Text("midnight"), Text("when"), Text("="), Text("now")]
    ensures Run(toks, Parsing(Pre, "", map["who" := "zumi"], ""), "dir/file", syn, true)
         == Err(AttrAlreadySet("who", "zumi"))
  {
    var path := "dir/file";
    assert ValidName("meow");
    var a1 := map["who" := "zumi"];
    var p3 := Parsing(Pre, "", a1, "");
    var p4 := Parsing(Post, "meow", a1, "");
    var p5 := Parsing(InAttr("who", false, ToPost), "meow", a1, "");
    var p6 := Parsing(InAttr("who", true, ToPost), "meow", a1, "");
    NameStep(p3, "meow", path, syn);
    Then(toks, p3, p4, path, syn);
    KeyStep(p4, "who", path, syn);
    Then(toks[1..], p4, p5, path, syn);
    EqStep(p5, path, syn);
    Then(toks[2..], p5, p6, path, syn);
    assert Step(p6, "midnight", path, syn, true) == Err(AttrAlreadySet("who", "zumi"));
  }

  lemma ScopeTwice(syn: Syntax)
    requires syn.lex("@scope=x .meow") == [Text("@scope"), Text("="), Text("x"), Text(".meow")]
    ensures ParseElement(Elem("@scope=x .meow", "dir/file"), syn) == Err(AttrAlreadySet("scope", "x"))
  {
    var path, toks := "dir/file", syn.lex("@scope=x .meow");
    assert ValidAttrName("scope");
    var p1 := Parsing(InAttr("scope", false, ToPre), "", map[], "");
    var p2 := Parsing(InAttr("scope", true, ToPre), "", map[], "");
    var p3 := Parsing(Pre, "", map["scope" := "x"], "");
    AtStep(Start, "scope", path, syn);
    Then(toks, Start, p1, path, syn);
    EqStep(p1, path, syn);
    Then(toks[1..], p1, p2, path, syn);
    assert Step(p2, "x", path, syn, true) == Ok(p3);
    Then(toks[2..], p2, p3, path, syn);
    assert Step(p3, ".meow", path, syn, true) == Err(AttrAlreadySet("scope", "x"));
  }

  /** `scope=.` after the name means the element's own file. */
  lemma ExplicitDotScope(syn: Syntax)
    requires syn.lex("meow who=midnight scope=.")
          == [Text("meow"), Text("who"), Text("="), Text("midnight"), Text("scope"), Text("="), Text(".")]
    ensures ParseElement(Elem("meow who=midnight scope=.", "dir/file"), syn)
         == Ok(E.Entry("meow", map["who" := "midnight", "scope" := "dir/file"], At("dir/file")))
  {
    var path, toks := "dir/file", syn.lex("meow who=midnight scope=.");
    assert ValidName("meow") && ValidAttrName("who");
    var a1 := map["who" := "midnight"];
    var a2 := a1["scope" := path];
    var p1 := Parsing(Post, "meow", map[], "");
    var p2 := Parsing(InAttr("who", false, ToPost), "meow", map[], "");
    var p3 := Parsing(InAttr("who", true, ToPost), "meow", map[], "");
    var p4 := Parsing(Post, "meow", a1, "");
    var p5 := Parsing(InAttr("scope", false, ToPost), "meow", a1, "");
    var p6 := Parsing(InAttr("scope", true, ToPost), "meow", a1, "");
    var p7 := Parsing(Post, "meow", a2, "");
    NameStep(Start, "meow", path, syn);
    Then(toks, Start, p1, path, syn);
    KeyStep(p1, "who", path, syn);
    Then(toks[1..], p1, p2, path, syn);
    EqStep(p2, path, syn);
    Then(toks[2..], p2, p3, path, syn);
    ValueStep(p3, "midnight", "midnight", path, syn);
    Then(toks[3..], p3, p4, path, syn);
    KeyStep(p4, "scope", path, syn);
    Then(toks[4..], p4, p5, path, syn);
    EqStep(p5, path, syn);
    Then(toks[5..], p5, p6, path, syn);
    ScopeValueStep(p6, ".", ".", path, syn);
    Then(toks[6..], p6, p7, path, syn);
    assert toks[6..][1..] == [];
  }

  /** A quoted `scope="./"` means the element's directory. */
  lemma ExplicitDirScope(syn: Syntax)
    requires syn.lex("meow who=midnight scope=\"./\"")
          == [Text("meow"), Text("who"), Text("="), Text("midnight"), Text("scope"), Text("="), Text("\"./\"")]
    requires syn.unquote("\"./\"") == Some("./")
    requires syn.dir("dir/file") == "dir"
    ensures ParseElement(Elem("meow who=midnight scope=\"./\"", "dir/file"), syn)
         == Ok(E.Entry("meow", map["who" := "midnight", "scope" := "dir/"], At("dir/file")))
  {
    var path, toks := "dir/file", syn.lex("meow who=midnight scope=\"./\"");
    assert ValidName("meow") && ValidAttrName("who");
    var a1 := map["who" := "midnight"];
    var p1 := Parsing(Post, "meow", map[], "");
    var p2 := Parsing(InAttr("who", false, ToPost), "meow", map[], "");
    var p3 := Parsing(InAttr("who", true, ToPost), "meow", map[], "");
    var p4 := Parsing(Post, "meow", a1, "");
    NameStep(Start, "meow", path, syn);
    Then(toks, Start, p1, path, syn);
    KeyStep(p1, "who", path, syn);
    Then(toks[1..], p1, p2, path, syn);
    EqStep(p2, path, syn);
    Then(toks[2..], p2, p3, path, syn);
    ValueStep(p3, "midnight", "midnight", path, syn);
    Then(toks[3..], p3, p4, path, syn);
    ExplicitDirScopeRest(toks[4..], syn);
  }

  lemma ExplicitDirScopeRest(toks: seq<Token>, syn: Syntax)
    requires toks == [Text("scope"), Text("="), Text("\"./\"")]
    requires syn.unquote("\"./\"") == Some("./")
    requires syn.dir("dir/file") == "dir"
    ensures Run(toks, Parsing(Post, "meow", map["who" := "midnight"], ""), "dir/file", syn, true)
         == Ok(Parsing(Post, "meow", map["who" := "midnight", "scope" := "dir/"], ""))
  {
    var path := "dir/file";
    var a1 := map["who" := "midnight"];
    var a2 := a1["scope" := "dir/"];
    var p4 := Parsing(Post, "meow", a1, "");
    var p5 := Parsing(InAttr("scope", false, ToPost), "meow", a1, "");
    var p6 := Parsing(InAttr("scope", true, ToPost), "meow", a1, "");
    var p7 := Parsing(Post, "meow", a2, "");
    assert "dir"[2] == 'r' && "dir" + "/" == "dir/";
    assert DirScope("dir") == Some("dir/");
    KeyStep(p4, "scope", path, syn);
    Then(toks, p4, p5, path, syn);
    EqStep(p5, path, syn);
    Then(toks[1..], p5, p6, path, syn);
    ScopeValueStep(p6, "\"./\"", "./", path, syn);
    Then(toks[2..], p6, p7, path, syn);
    assert toks[2..][1..] == [];
  }

  /** `?` alone makes an exact search. */
  lemma ExactSearch(syn: Syntax)
    requires syn.lex("? _ x=\"any*\"") == [Text("?"), Text("_"), Text("x"), Text("="), Text("\"any*\"")]
    requires syn.unquote("\"any*\"") == Some("any*")
    ensures ParseElement(Elem("? _ x=\"any*\"", "dir/file"), syn)
         == Ok(E.Entry("_", map["search" := "exact", "x" := "any*"], At("dir/file")))
  {
    var path, toks := "dir/file", syn.lex("? _ x=\"any*\"");
    assert ValidName("_") && ValidAttrName("x");
    var a1 := map["search" := "exact"];
    var a2 := a1["x" := "any*"];
    var p1 := Parsing(Pre, "", a1, "exact");
    var p2 := Parsing(Post, "_", a1, "exact");
    var p3 := Parsing(InAttr("x", false, ToPost), "_", a1, "exact");
    var p4 := Parsing(InAttr("x", true, ToPost), "_", a1, "exact");
    var p5 := Parsing(Post, "_", a2, "exact");
    SearchStep(Start, "", path, syn);
    assert "?" + "" == "?";
    Then(toks, Start, p1, path, syn);
    assert Step(p1, "_", path, syn, true) == Ok(p2);
    Then(toks[1..], p1, p2, path, syn);
    KeyStep(p2, "x", path, syn);
    Then(toks[2..], p2, p3, path, syn);
    EqStep(p3, path, syn);
    Then(toks[3..], p3, p4, path, syn);
    ValueStep(p4, "\"any*\"", "any*", path, syn);
    Then(toks[4..], p4, p5, path, syn);
    assert toks[4..][1..] == [];
  }

  /** A glob search takes a name that is not a valid tag name. */
  lemma GlobSearchName(syn: Syntax)
    requires syn.lex("?g \"*\"") == [Text("?g"), Text("\"*\"")]
    requires syn.unquote("\"*\"") == Some("*")
    ensures ParseElement(Elem("?g \"*\"", "dir/file"), syn)
         == Ok(E.Entry("*", map["search" := "glob"], At("dir/file")))
  {
    var path, toks := "dir/file", syn.lex("?g \"*\"");
    var a1 := map["search" := "glob"];
    var p1 := Parsing(Pre, "", a1, "glob");
    var p2 := Parsing(Post, "*", a1, "glob");
    SearchStep(Start, "g", path, syn);
    assert "?" + "g" == "?g";
    Then(toks, Start, p1, path, syn);
    PatternNameStep(p1, "\"*\"", "*", path, syn);
    Then(toks[1..], p1, p2, path, syn);
    assert toks[1..][1..] == [];
  }
}
