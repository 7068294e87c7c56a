/** The index entry (pkg/clutter/clutterindex/entry.go): search entries and
    the matcher they compile to, the scope-referral relation, the attribute
    view with the location injected, and the record form an entry is
    stored in. */
module Entries {
  import opened Wrappers
  import opened Strs
  import opened Attributes
  import L = Locations
  import SM = StrMatcher

  /** One tag occurrence. */
  datatype Entry = Entry(name: string, attrs: Attrs, loc: L.Loc)

  // ------------------------------------------------------------ search entries

  /** IsSearch: the value of the "search" attribute and whether it is present. */
  function IsSearch(e: Entry): (r: (string, bool))
    ensures r.1 <==> "search" in e.attrs
    ensures r.0 == Lookup(e.attrs, "search")
  {
    if "search" in e.attrs then (e.attrs["search"], true) else ("", false)
  }

  /** The compiler a search type names; any other text names none. */
  function PatternKind(pt: string): (k: Option<SM.Kind>)
    ensures k == Some(SM.ExactKind) <==> pt == "exact"
    ensures k == Some(SM.RegexpKind) <==> pt == "regexp"
    ensures k == Some(SM.GlobKind) <==> pt == "glob"
  {
    match pt
    case "exact" => Some(SM.ExactKind)
    case "regexp" => Some(SM.RegexpKind)
    case "glob" => Some(SM.GlobKind)
    case _ => None
  }

  datatype MatcherError =
    | UnknownPatternType
    | NamePatternError(cause: SM.CompileError)
    | AttrPatternError(value: string, key: string, cause: SM.CompileError)

  /** The compiled search: an optional name pattern (none accepts any name)
      and one pattern per attribute key. */
  datatype EntryMatcher = EntryMatcher(name: Option<SM.Matcher>, attrs: map<string, SM.Matcher>)

  /** The attribute loop of Matcher, over the keys in the order given. Go
      walks the map in an unspecified order; the first failure met is
      reported. */
  function CompileAttrs(kind: SM.Kind, a: Attrs, keys: seq<string>, o: SM.Oracle)
    : (r: Result<map<string, SM.Matcher>, MatcherError>)
    requires forall i :: 0 <= i < |keys| ==> keys[i] in a
    ensures r.Ok? ==> r.value.Keys == set k | k in keys
    ensures r.Ok? ==> forall k :: k in keys ==> SM.Compile(kind, a[k], o) == Ok(r.value[k])
    ensures r.Err? ==> r.error.AttrPatternError?
    ensures r.Err? ==> (exists i :: 0 <= i < |keys| && r.error.key == keys[i] && r.error.value == a[keys[i]]
                          && SM.Compile(kind, a[keys[i]], o) == Err(r.error.cause))
    ensures r.Ok? <==> forall k :: k in keys ==> SM.Compile(kind, a[k], o).Ok?
  {
    if |keys| == 0 then Ok(map[])
    else
      var k := keys[0];
      match SM.Compile(kind, a[k], o)
      case Err(cause) => Err(AttrPatternError(a[k], k, cause))
      case Ok(m) =>
        match CompileAttrs(kind, a, keys[1..], o)
        case Err(e) => Err(e)
        case Ok(ms) =>
          assert forall x :: x in keys ==> x == k || x in keys[1..];
          Ok(ms[k := m])
  }

  /** Matcher: the search type picks the compiler; then the name (when not
      empty) and every attribute but "search" are compiled as patterns. */
  function Matcher(e: Entry, o: SM.Oracle): (r: Result<EntryMatcher, MatcherError>)
    ensures PatternKind(IsSearch(e).0).None? ==> r == Err(UnknownPatternType)
    ensures r.Ok? ==> PatternKind(IsSearch(e).0).Some?
    ensures r.Ok? ==> (r.value.name.None? <==> e.name == "")
    ensures r.Ok? && e.name != "" ==>
      SM.Compile(PatternKind(IsSearch(e).0).value, e.name, o) == Ok(r.value.name.value)
    ensures r.Ok? ==> r.value.attrs.Keys == e.attrs.Keys - {"search"}
    ensures r.Ok? ==> forall k :: k in r.value.attrs ==>
      SM.Compile(PatternKind(IsSearch(e).0).value, e.attrs[k], o) == Ok(r.value.attrs[k])
    ensures r.Ok? <==>
      && PatternKind(IsSearch(e).0).Some?
      && (e.name != "" ==> SM.Compile(PatternKind(IsSearch(e).0).value, e.name, o).Ok?)
      && forall k :: k in e.attrs && k != "search" ==>
           SM.Compile(PatternKind(IsSearch(e).0).value, e.attrs[k], o).Ok?
  {
    match PatternKind(IsSearch(e).0)
    case None => Err(UnknownPatternType)
    case Some(kind) =>
      var name: Result<Option<SM.Matcher>, MatcherError> :=
        if e.name == "" then Ok(None)
        else match SM.Compile(kind, e.name, o)
          case Err(cause) => Err(NamePatternError(cause))
          case Ok(m) => Ok(Some(m));
      match name
      case Err(err) => Err(err)
      case Ok(nm) =>
        match CompileAttrs(kind, e.attrs, SortedKeys(e.attrs.Keys - {"search"}), o)
        case Err(err) => Err(err)
        case Ok(ms) => Ok(EntryMatcher(nm, ms))
  }

  /** AttrsWithLoc: a copy of the attributes with "loc" set to the printed
      location. */
  function AttrsWithLoc(e: Entry): (r: Attrs)
    ensures "loc" in r && r["loc"] == L.String(e.loc)
    ensures forall k :: k != "loc" ==> (k in r <==> k in e.attrs)
    ensures forall k :: k != "loc" && k in e.attrs ==> r[k] == e.attrs[k]
  {
    e.attrs["loc" := L.String(e.loc)]
  }

  /** The inner loop of the compiled matcher: walk the candidate's
      attributes and stop at the first one under `key` that `m` accepts. */
  function AnyAttrAccepted(m: SM.Matcher, key: string, cand: Attrs, walk: seq<string>, o: SM.Oracle): (r: bool)
    requires forall i :: 0 <= i < |walk| ==> walk[i] in cand
    ensures r <==> key in walk && SM.Accepts(m, cand[key], o)
  {
    if |walk| == 0 then false
    else if walk[0] != key then AnyAttrAccepted(m, key, cand, walk[1..], o)
    else if SM.Accepts(m, cand[key], o) then true
    else AnyAttrAccepted(m, key, cand, walk[1..], o)
  }

  /** The outer loop of the compiled matcher: every attribute pattern must
      be satisfied by some candidate attribute. */
  function AllAttrsAccepted(ms: map<string, SM.Matcher>, keys: seq<string>, cand: Attrs, o: SM.Oracle): (r: bool)
    requires forall i :: 0 <= i < |keys| ==> keys[i] in ms
    ensures r <==> forall k :: k in keys ==> k in cand && SM.Accepts(ms[k], cand[k], o)
  {
    if |keys| == 0 then true
    else if !AnyAttrAccepted(ms[keys[0]], keys[0], cand, SortedKeys(cand.Keys), o) then false
    else AllAttrsAccepted(ms, keys[1..], cand, o)
  }

  /** The closure Matcher returns, applied to a candidate entry. */
  predicate Accepts(m: EntryMatcher, other: Entry, o: SM.Oracle) {
    if IsSearch(other).1 then false
    else if m.name.Some? && !SM.Accepts(m.name.value, other.name, o) then false
    else AllAttrsAccepted(m.attrs, SortedKeys(m.attrs.Keys), AttrsWithLoc(other), o)
  }

  /** What a compiled search accepts: never a search entry; a name the name
      pattern accepts (any name when there is none); and for every attribute
      pattern, an attribute of the candidate (its location included) under
      the same key that the pattern accepts. */
  lemma AcceptsMeaning(e: Entry, other: Entry, o: SM.Oracle)
    requires Matcher(e, o).Ok?
    ensures var m := Matcher(e, o).value;
      var cand := AttrsWithLoc(other);
      Accepts(m, other, o) <==>
        && "search" !in other.attrs
        && (e.name == "" || SM.Accepts(m.name.value, other.name, o))
        && forall k :: k in e.attrs && k != "search" ==>
             k in cand && SM.Accepts(m.attrs[k], cand[k], o)
  {
    var m := Matcher(e, o).value;
    AcceptsUnfold(m, other, o);
    assert m.attrs.Keys == e.attrs.Keys - {"search"};
    assert m.name.None? <==> e.name == "";
  }

  /** The compiled closure in terms of its parts, whatever order the
      attribute patterns are tried in. */
  lemma AcceptsUnfold(m: EntryMatcher, other: Entry, o: SM.Oracle)
    ensures var cand := AttrsWithLoc(other);
      Accepts(m, other, o) <==>
        && "search" !in other.attrs
        && (m.name.Some? ==> SM.Accepts(m.name.value, other.name, o))
        && forall k :: k in m.attrs ==> k in cand && SM.Accepts(m.attrs[k], cand[k], o)
  {
    var ks := SortedKeys(m.attrs.Keys);
    assert forall k :: k in ks <==> k in m.attrs;
  }

  /** A search entry never matches another search entry. */
  lemma SearchNeverAcceptsSearch(e: Entry, other: Entry, o: SM.Oracle)
    requires Matcher(e, o).Ok?
    requires IsSearch(other).1
    ensures !Accepts(Matcher(e, o).value, other, o)
  {
  }

  /** An exact search (`?` or `?exact`) compares texts: the name when one is
      given, and each attribute, "loc" against the printed location. */
  lemma ExactSearchMeaning(e: Entry, other: Entry, o: SM.Oracle)
    requires IsSearch(e).0 == "exact"
    ensures Matcher(e, o).Ok?
    ensures Accepts(Matcher(e, o).value, other, o) <==>
      && "search" !in other.attrs
      && (e.name == "" || e.name == other.name)
      && forall k :: k in e.attrs && k != "search" ==>
           k in AttrsWithLoc(other) && AttrsWithLoc(other)[k] == e.attrs[k]
  {
    assert PatternKind(IsSearch(e).0) == Some(SM.ExactKind);
    var m := Matcher(e, o).value;
    var cand := AttrsWithLoc(other);
    AcceptsMeaning(e, other, o);
    assert e.name != "" ==> m.name.value == SM.Exact(e.name);
    assert m.attrs.Keys == e.attrs.Keys - {"search"};
    assert forall k :: k in m.attrs ==> m.attrs[k] == SM.Exact(e.attrs[k]);
    ExactAttrsAgree(m.attrs, e.attrs, cand, o);
  }

  /** Exact attribute patterns accept a candidate attribute exactly when it
      equals the pattern text. */
  lemma ExactAttrsAgree(ms: map<string, SM.Matcher>, a: Attrs, cand: Attrs, o: SM.Oracle)
    requires ms.Keys == a.Keys - {"search"}
    requires forall k :: k in ms ==> ms[k] == SM.Exact(a[k])
    ensures (forall k :: k in a && k != "search" ==> k in cand && SM.Accepts(ms[k], cand[k], o))
        <==> (forall k :: k in a && k != "search" ==> k in cand && cand[k] == a[k])
  {
  }

  /** A search that names no pattern type cannot be compiled, and neither
      can a plain entry. */
  lemma PlainEntryHasNoMatcher(e: Entry, o: SM.Oracle)
    requires "search" !in e.attrs
    ensures Matcher(e, o) == Err(UnknownPatternType)
  {
  }

  // ------------------------------------------------------------------- scope

  /** IsReferredBy: may `them` refer to `e`? With an unscoped receiver,
      their scope (if any) must admit the receiver's path; with a scoped
      receiver, that scope must admit their scope, or their path when they
      have none. A scope ending in "/" admits by prefix, any other exactly. */
  predicate IsReferredBy(e: Entry, them: Entry) {
    var mine := Lookup(e.attrs, "scope");
    var theirs := Lookup(them.attrs, "scope");
    if mine == "" then
      if theirs == "" then true
      else if HasSuffix(theirs, "/") then HasPrefix(e.loc.path, theirs)
      else e.loc.path == theirs
    else
      var theirs' := if theirs == "" then them.loc.path else theirs;
      if HasSuffix(mine, "/") then HasPrefix(theirs', mine)
      else mine == theirs'
  }

  /** A scope admits a path: a directory scope by prefix, a file scope by
      equality. */
  predicate Admits(scope: string, path: string) {
    if HasSuffix(scope, "/") then HasPrefix(path, scope) else scope == path
  }

  /** Referral in terms of admission, the two sides' roles swapping with
      whether the receiver is scoped. */
  lemma IsReferredByAdmits(e: Entry, them: Entry)
    ensures var mine := Lookup(e.attrs, "scope");
      var theirs := Lookup(them.attrs, "scope");
      IsReferredBy(e, them) <==>
        if mine == "" then theirs == "" || Admits(theirs, e.loc.path)
        else Admits(mine, if theirs == "" then them.loc.path else theirs)
  {
  }

  /** Every entry may refer to itself. */
  lemma IsReferredByReflexive(e: Entry)
    ensures IsReferredBy(e, e)
  {
    var mine := Lookup(e.attrs, "scope");
    if mine != "" && HasSuffix(mine, "/") {
      assert mine[..|mine|] == mine;
    }
  }

  /** Referral is not symmetric: a directory scope admits a narrower one but
      not the other way round. */
  lemma IsReferredByNotSymmetric()
    ensures var p := L.Loc("x.go", 1, 1, 2);
      var e := Entry("t", map["scope" := "a/"], p);
      var them := Entry("t", map["scope" := "a/b/"], p);
      IsReferredBy(e, them) && !IsReferredBy(them, e)
  {
    var a, ab := "a/", "a/b/";
    assert ab[..|a|] == a;
    assert a[|a| - 1..] == "/" && ab[|ab| - 1..] == "/";
  }

  /** Concrete referral cases: an unscoped tag under "a/" is referred to
      from a directory scope "a/", one under "c/" is not, and a tag scoped
      to its own file is referred to by an unscoped tag in that file. */
  lemma IsReferredByExamples()
    ensures IsReferredBy(Entry("t", map[], L.Loc("a/b.go", 1, 1, 2)),
                         Entry("t", map["scope" := "a/"], L.Loc("z.go", 1, 1, 2)))
    ensures !IsReferredBy(Entry("t", map[], L.Loc("c/d.go", 1, 1, 2)),
                          Entry("t", map["scope" := "a/"], L.Loc("z.go", 1, 1, 2)))
    ensures IsReferredBy(Entry("t", map["scope" := "x/y.go"], L.Loc("x/y.go", 1, 1, 2)),
                         Entry("t", map[], L.Loc("x/y.go", 7, 1, 2)))
  {
    var ab, a, cd := "a/b.go", "a/", "c/d.go";
    assert ab[..|a|] == a;
    assert cd[..|a|] != a by { assert cd[0] != a[0]; }
    assert a[|a| - 1..] == "/";
  }

  // ---------------------------------------------------------- record form

  predicate NoDuplicates(ks: seq<string>) {
    forall i, j :: 0 <= i < j < |ks| ==> ks[i] != ks[j]
  }

  /** The attribute keys in record order: "scope" first when it has a
      value, then every other key in ascending order. An empty scope is
      dropped. */
  function RecordKeys(a: Attrs): (ks: seq<string>)
    ensures forall k :: k in ks <==> k in a && (k != "scope" || a[k] != "")
    ensures NoDuplicates(ks)
    ensures Lookup(a, "scope") != "" ==> ks[0] == "scope" && StrictlySorted(ks[1..])
    ensures Lookup(a, "scope") == "" ==> StrictlySorted(ks)
  {
    var rest := SortedKeys(a.Keys - {"scope"});
    LessIrreflexiveAll(rest);
    if Lookup(a, "scope") != "" then ["scope"] + rest else rest
  }

  lemma LessIrreflexiveAll(s: seq<string>)
    requires StrictlySorted(s)
    ensures NoDuplicates(s)
  {
    forall i, j | 0 <= i < j < |s| ensures s[i] != s[j] {
      if s[i] == s[j] {
        LessIrreflexive(s[i]);
      }
    }
  }

  /** The rendered attribute fields for keys `ks`, in that order. */
  function AttrFields(a: Attrs, ks: seq<string>): (fs: seq<string>)
    ensures |fs| == |ks|
    ensures forall i :: 0 <= i < |ks| ==> fs[i] == AttrToString(ks[i], Lookup(a, ks[i]))
  {
    if |ks| == 0 then []
    else AttrFields(a, ks[..|ks| - 1]) + [AttrToString(ks[|ks| - 1], Lookup(a, ks[|ks| - 1]))]
  }

  /** The fields of marshal: the name, the printed location, then the
      attributes in record order. */
  function MarshalFields(e: Entry): (fs: seq<string>)
    ensures |fs| == 2 + |RecordKeys(e.attrs)|
    ensures fs[0] == e.name && fs[1] == L.String(e.loc)
    ensures fs[2..] == AttrFields(e.attrs, RecordKeys(e.attrs))
  {
    [e.name, L.String(e.loc)] + AttrFields(e.attrs, RecordKeys(e.attrs))
  }

  /** The attribute fields read back in order; a key set twice keeps its
      last value. */
  function FieldsToAttrs(fs: seq<string>): Attrs {
    if |fs| == 0 then map[]
    else
      var kv := SplitAttr(fs[|fs| - 1]);
      FieldsToAttrs(fs[..|fs| - 1])[kv.0 := kv.1]
  }

  /** The keys read back are exactly the keys of the fields. */
  lemma {:induction false} FieldsToAttrsKeys(fs: seq<string>)
    ensures forall k :: k in FieldsToAttrs(fs) <==> exists i :: 0 <= i < |fs| && SplitAttr(fs[i]).0 == k
    decreases |fs|
  {
    if |fs| > 0 {
      var init := fs[..|fs| - 1];
      FieldsToAttrsKeys(init);
      assert forall i :: 0 <= i < |init| ==> init[i] == fs[i];
    }
  }

  /** A later field overrides an earlier one under the same key. */
  lemma {:induction false} FieldsToAttrsLastWins(fs: seq<string>, i: nat)
    requires i < |fs|
    requires forall j :: i < j < |fs| ==> SplitAttr(fs[j]).0 != SplitAttr(fs[i]).0
    ensures SplitAttr(fs[i]).0 in FieldsToAttrs(fs)
    ensures FieldsToAttrs(fs)[SplitAttr(fs[i]).0] == SplitAttr(fs[i]).1
    decreases |fs|
  {
    var key := SplitAttr(fs[i]).0;
    var last := SplitAttr(fs[|fs| - 1]);
    var init := fs[..|fs| - 1];
    assert FieldsToAttrs(fs) == FieldsToAttrs(init)[last.0 := last.1];
    if i < |fs| - 1 {
      assert init[i] == fs[i];
      forall j | i < j < |init| ensures SplitAttr(init[j]).0 != key {
        assert init[j] == fs[j];
      }
      FieldsToAttrsLastWins(init, i);
      assert last.0 != key;
    }
  }

  datatype RecordError = MalformedCsv(msg: string) | InvalidRecord | BadLoc(cause: L.LocError)

  /** unmarshal over the field list: at least a name and a location, the
      location must parse, and every further field is an attribute. */
  function UnmarshalFields(fs: seq<string>): (r: Result<Entry, RecordError>)
    ensures |fs| < 2 ==> r == Err(InvalidRecord)
    ensures |fs| >= 2 && L.ParseLocString(fs[1]).Err? ==> r == Err(BadLoc(L.ParseLocString(fs[1]).error))
    ensures r.Ok? ==> Ok(r.value.loc) == L.ParseLocString(fs[1]) && r.value.name == fs[0]
    ensures r.Ok? ==> r.value.attrs == FieldsToAttrs(fs[2..])
  {
    if |fs| < 2 then Err(InvalidRecord)
    else
      match L.ParseLocString(fs[1])
      case Err(cause) => Err(BadLoc(cause))
      case Ok(loc) => Ok(Entry(fs[0], FieldsToAttrs(fs[2..]), loc))
  }

  lemma FieldsToAttrsSnoc(fs: seq<string>, f: string)
    ensures FieldsToAttrs(fs + [f]) == FieldsToAttrs(fs)[SplitAttr(f).0 := SplitAttr(f).1]
  {
    assert (fs + [f])[..|fs|] == fs;
  }

  lemma AttrFieldsSnoc(a: Attrs, ks: seq<string>, k: string)
    ensures AttrFields(a, ks + [k]) == AttrFields(a, ks) + [AttrToString(k, Lookup(a, k))]
  {
    assert (ks + [k])[..|ks|] == ks;
  }

  lemma MapSnoc(a: Attrs, ks: seq<string>, k: string)
    ensures (map x | x in ks :: Lookup(a, x))[k := Lookup(a, k)] == map x | x in ks + [k] :: Lookup(a, x)
  {
  }

  /** Reading back the fields of distinct keys without "=" gives exactly
      those keys with their values. */
  lemma {:induction false} FieldsToAttrsOfAttrFields(a: Attrs, ks: seq<string>)
    requires forall k :: k in ks ==> '=' !in k
    ensures FieldsToAttrs(AttrFields(a, ks)) == map k | k in ks :: Lookup(a, k)
  {
    if |ks| > 0 {
      var init := ks[..|ks| - 1];
      var k := ks[|ks| - 1];
      assert ks == init + [k];
      FieldsToAttrsOfAttrFields(a, init);
      AttrFieldsSnoc(a, init, k);
      FieldsToAttrsSnoc(AttrFields(a, init), AttrToString(k, Lookup(a, k)));
      SplitAttrToString(k, Lookup(a, k));
      MapSnoc(a, init, k);
    }
  }

  /** The entry a stored record stands for: an empty scope is not kept. */
  function DropEmptyScope(e: Entry): (r: Entry)
    ensures r.name == e.name && r.loc == e.loc
    ensures "scope" in r.attrs ==> r.attrs["scope"] != ""
    ensures forall k :: k != "scope" ==> (k in r.attrs <==> k in e.attrs)
    ensures forall k :: k in r.attrs ==> k in e.attrs && r.attrs[k] == e.attrs[k]
  {
    if Lookup(e.attrs, "scope") == "" then e.(attrs := e.attrs - {"scope"}) else e
  }

  /** unmarshal(marshal(e)) restores e, less an empty scope, when the
      location prints in parseable form and no key holds "=". */
  lemma MarshalRoundTrip(e: Entry)
    requires L.Printable(e.loc)
    requires forall k :: k in e.attrs ==> '=' !in k
    ensures UnmarshalFields(MarshalFields(e)) == Ok(DropEmptyScope(e))
  {
    var ks := RecordKeys(e.attrs);
    var fs := MarshalFields(e);
    assert L.ParseLocString(fs[1]) == Ok(e.loc) by {
      L.RoundTrip(e.loc);
    }
    assert FieldsToAttrs(fs[2..]) == DropEmptyScope(e).attrs by {
      FieldsToAttrsOfAttrFields(e.attrs, ks);
      RecordKeysMap(e);
    }
  }

  lemma RecordKeysMap(e: Entry)
    ensures (map k | k in RecordKeys(e.attrs) :: Lookup(e.attrs, k)) == DropEmptyScope(e).attrs
  {
  }

  /** The text codec of a record (encoding/csv with ' ' as the separator,
      trailing newline removed), left uninterpreted. */
  datatype Codec = Codec(encode: seq<string> -> string, decode: string -> Result<seq<string>, string>)

  /** marshal */
  function Marshal(e: Entry, c: Codec): string {
    c.encode(MarshalFields(e))
  }

  /** unmarshal */
  function Unmarshal(text: string, c: Codec): (r: Result<Entry, RecordError>)
    ensures c.decode(text).Err? ==> r == Err(MalformedCsv(c.decode(text).error))
    ensures c.decode(text).Ok? ==> r == UnmarshalFields(c.decode(text).value)
  {
    match c.decode(text)
    case Err(msg) => Err(MalformedCsv(msg))
    case Ok(fs) => UnmarshalFields(fs)
  }

  /** The record round trip through a codec that reads back what it wrote. */
  lemma UnmarshalMarshal(e: Entry, c: Codec)
    requires L.Printable(e.loc)
    requires forall k :: k in e.attrs ==> '=' !in k
    requires c.decode(c.encode(MarshalFields(e))) == Ok(MarshalFields(e))
    ensures Unmarshal(Marshal(e, c), c) == Ok(DropEmptyScope(e))
  {
    MarshalRoundTrip(e);
  }
}
