/** Resolving a tag against the index (internal/pkg/resolver/resolver.go):
    list every entry the tag refers to, or step to the next or previous one
    relative to the tag's own location, optionally wrapping around. The Go
    callback keeps its state in captured variables; here that state is
    threaded through a fold over the index. */
module Resolver {
  import opened Wrappers
  import E = Entries
  import I = Index
  import L = Locations
  import SM = StrMatcher

  /** The flags of one resolution. */
  datatype Params = Params(next: bool, prev: bool, cycle: bool, first: bool, last: bool)

  const NoFlags := Params(false, false, false, false, false)

  /** A resolution fails when next and prev are both asked for (a panic in
      Go) or when a search tag does not compile. */
  datatype ResolveError = ConflictingFlags | InvalidSearchTag

  /** What decides that an entry matches: for a plain tag, the same name and
      a scope that lets the tag refer to it; for a search tag, its matcher. */
  datatype Selector = ByName(what: E.Entry) | BySearch(m: E.EntryMatcher)

  predicate Selects(sel: Selector, ent: E.Entry, o: SM.Oracle) {
    match sel
    case ByName(what) => what.name == ent.name && E.IsReferredBy(ent, what)
    case BySearch(m) => E.Accepts(m, ent, o)
  }

  /** The selector of a tag: a search tag's compiled matcher, or its name. */
  function SelectorOf(what: E.Entry, o: SM.Oracle): (r: Result<Selector, ResolveError>)
    ensures r.Err? ==> r.error == InvalidSearchTag && E.IsSearch(what).1
    ensures r.Ok? ==> (r.value.BySearch? <==> E.IsSearch(what).1)
  {
    if !E.IsSearch(what).1 then Ok(ByName(what))
    else
      match E.Matcher(what, o)
      case Err(_) => Err(InvalidSearchTag)
      case Ok(m) => Ok(BySearch(m))
  }

  /** A tag fails to select exactly when it is a search tag whose matcher
      does not compile. */
  lemma SelectorOfFails(what: E.Entry, o: SM.Oracle)
    ensures SelectorOf(what, o).Err? <==> E.IsSearch(what).1 && E.Matcher(what, o).Err?
    ensures SelectorOf(what, o).Ok? && E.IsSearch(what).1 ==>
      SelectorOf(what, o).value == BySearch(E.Matcher(what, o).value)
  {
  }

  // ------------------------------------------------------------- the walk

  /** The callback's captured variables: the held entry and the result. */
  datatype State = State(hold: Option<E.Entry>, ents: seq<E.Entry>)

  /** One call of the callback: whether it returns ErrStop, and the new state. */
  function Visit(p: Params, at: L.Loc, sel: Selector, o: SM.Oracle, st: State, ent: E.Entry): (bool, State) {
    if !Selects(sel, ent, o) then (false, st)
    else if p.prev then
      if ent.loc == at then
        if st.hold.None? then (true, st)
        else (true, st.(ents := st.ents + [st.hold.value]))
      else (false, st.(hold := Some(ent)))
    else if p.next then
      if st.hold.None? then (false, if ent.loc == at then st.(hold := Some(ent)) else st)
      else (true, st.(ents := st.ents + [ent]))
    else (p.first, st.(ents := st.ents + [ent]))
  }

  /** index.ForEach over the callback: it walks the entries in order and ends
      at the first ErrStop. The callback returns no other error, so the
      walk never fails. */
  function Walk(es: seq<E.Entry>, p: Params, at: L.Loc, sel: Selector, o: SM.Oracle, st: State): State
    decreases |es|
  {
    if |es| == 0 then st
    else
      var (stop, st') := Visit(p, at, sel, o, st, es[0]);
      if stop then st' else Walk(es[1..], p, at, sel, o, st')
  }

  /** resolve: the walk, then wrapping around when cycling found nothing,
      then keeping only the last entry when asked. A search tag ignores next
      and prev. */
  function Resolve(what: E.Entry, idx: I.Index, p: Params, o: SM.Oracle): (r: Result<seq<E.Entry>, ResolveError>)
    ensures p.next && p.prev ==> r == Err(ConflictingFlags)
    ensures !(p.next && p.prev) ==> (r == Err(InvalidSearchTag) <==> SelectorOf(what, o).Err?)
    ensures r.Err? ==> (p.next && p.prev) || SelectorOf(what, o).Err?
    decreases if p.cycle && (p.next || p.prev) then 1 else 0
  {
    if p.next && p.prev then Err(ConflictingFlags)
    else
      match SelectorOf(what, o)
      case Err(e) => Err(e)
      case Ok(sel) =>
        var q := if sel.BySearch? then p.(next := false, prev := false) else p;
        var ents := Walk(idx.entries, q, what.loc, sel, o, State(None, [])).ents;
        if q.cycle && |ents| == 0 && q.next then Resolve(what, idx, NoFlags.(first := true), o)
        else if q.cycle && |ents| == 0 && q.prev then Resolve(what, idx, NoFlags.(last := true), o)
        else if q.last && |ents| > 0 then Ok([ents[|ents| - 1]])
        else Ok(ents)
  }

  function ResolveList(what: E.Entry, idx: I.Index, o: SM.Oracle): Result<seq<E.Entry>, ResolveError> {
    Resolve(what, idx, NoFlags, o)
  }

  function ResolveNext(what: E.Entry, idx: I.Index, cycle: bool, o: SM.Oracle): Result<seq<E.Entry>, ResolveError> {
    Resolve(what, idx, NoFlags.(next := true, cycle := cycle), o)
  }

  function ResolvePrev(what: E.Entry, idx: I.Index, cycle: bool, o: SM.Oracle): Result<seq<E.Entry>, ResolveError> {
    Resolve(what, idx, NoFlags.(prev := true, cycle := cycle), o)
  }

  // ------------------------------------------------- reference definitions

  /** The matching entries, in index order. */
  function Matches(es: seq<E.Entry>, sel: Selector, o: SM.Oracle): (ms: seq<E.Entry>)
    ensures |ms| <= |es|
    ensures forall x :: x in ms <==> x in es && Selects(sel, x, o)
  {
    if |es| == 0 then []
    else
      var rest := Matches(es[1..], sel, o);
      assert forall x :: x in es <==> x == es[0] || x in es[1..];
      if Selects(sel, es[0], o) then [es[0]] + rest else rest
  }

  /** Where the first match at a location is, if any. */
  function Found(ms: seq<E.Entry>, at: L.Loc): (k: Option<nat>)
    ensures k.Some? ==> k.value < |ms| && ms[k.value].loc == at
    ensures k.Some? ==> forall j :: 0 <= j < k.value ==> ms[j].loc != at
    ensures k.None? <==> forall j :: 0 <= j < |ms| ==> ms[j].loc != at
  {
    if |ms| == 0 then None
    else if ms[0].loc == at then Some(0)
    else
      match Found(ms[1..], at)
      case None => None
      case Some(k) => Some(k + 1)
  }

  /** The match right after the first one at the location. */
  function NextOf(ms: seq<E.Entry>, at: L.Loc): seq<E.Entry> {
    match Found(ms, at)
    case None => []
    case Some(k) => if k + 1 < |ms| then [ms[k + 1]] else []
  }

  /** The match right before the first one at the location. */
  function PrevOf(ms: seq<E.Entry>, at: L.Loc): seq<E.Entry> {
    match Found(ms, at)
    case None => []
    case Some(k) => if k > 0 then [ms[k - 1]] else []
  }

  function FirstOf(ms: seq<E.Entry>): seq<E.Entry> {
    if |ms| == 0 then [] else [ms[0]]
  }

  function LastOf(ms: seq<E.Entry>): seq<E.Entry> {
    if |ms| == 0 then [] else [ms[|ms| - 1]]
  }

  function Held(h: Option<E.Entry>): seq<E.Entry> {
    if h.Some? then [h.value] else []
  }

  // ------------------------------------------------------------ walk lemmas

  lemma MatchesCons(es: seq<E.Entry>, sel: Selector, o: SM.Oracle)
    requires |es| > 0
    ensures Matches(es, sel, o) ==
      (if Selects(sel, es[0], o) then [es[0]] + Matches(es[1..], sel, o) else Matches(es[1..], sel, o))
  {
  }

  lemma NextOfSkip(x: E.Entry, ms: seq<E.Entry>, at: L.Loc)
    requires x.loc != at
    ensures NextOf([x] + ms, at) == NextOf(ms, at)
  {
    assert ([x] + ms)[1..] == ms;
  }

  lemma PrevOfSkip(h: E.Entry, x: E.Entry, ms: seq<E.Entry>, at: L.Loc)
    requires h.loc != at && x.loc != at
    ensures PrevOf([h] + ([x] + ms), at) == PrevOf([x] + ms, at)
  {
    assert ([h] + ([x] + ms))[1..] == [x] + ms;
    assert ([x] + ms)[1..] == ms;
  }

  /** In list mode the walk collects every match. */
  lemma {:induction false} WalkList(es: seq<E.Entry>, p: Params, at: L.Loc, sel: Selector, o: SM.Oracle, st: State)
    requires !p.prev && !p.next && !p.first
    ensures Walk(es, p, at, sel, o, st).ents == st.ents + Matches(es, sel, o)
    decreases |es|
  {
    if |es| > 0 {
      MatchesCons(es, sel, o);
      var st' := Visit(p, at, sel, o, st, es[0]).1;
      WalkList(es[1..], p, at, sel, o, st');
    }
  }

  /** In first mode the walk stops at the first match. */
  lemma {:induction false} WalkFirst(es: seq<E.Entry>, p: Params, at: L.Loc, sel: Selector, o: SM.Oracle, st: State)
    requires !p.prev && !p.next && p.first
    ensures Walk(es, p, at, sel, o, st).ents == st.ents + FirstOf(Matches(es, sel, o))
    decreases |es|
  {
    if |es| > 0 {
      MatchesCons(es, sel, o);
      WalkFirst(es[1..], p, at, sel, o, st);
    }
  }

  /** In next mode the walk holds the first match at the location and emits
      the match after it. */
  lemma {:induction false} WalkNext(es: seq<E.Entry>, p: Params, at: L.Loc, sel: Selector, o: SM.Oracle, st: State)
    requires p.next && !p.prev
    requires st.hold.Some? ==> st.hold.value.loc == at
    ensures Walk(es, p, at, sel, o, st).ents == st.ents + NextOf(Held(st.hold) + Matches(es, sel, o), at)
    decreases |es|
  {
    var ms := Matches(es, sel, o);
    var hs := Held(st.hold) + ms;
    if |es| == 0 {
      assert hs == Held(st.hold);
      if st.hold.Some? {
        assert Found(hs, at) == Some(0);
      }
      assert NextOf(hs, at) == [];
    } else if !Selects(sel, es[0], o) {
      MatchesCons(es, sel, o);
      WalkNext(es[1..], p, at, sel, o, st);
    } else {
      var x := es[0];
      var rest := Matches(es[1..], sel, o);
      assert ms == [x] + rest by {
        MatchesCons(es, sel, o);
      }
      if st.hold.Some? {
        assert Walk(es, p, at, sel, o, st).ents == st.ents + [x];
        assert hs[0] == st.hold.value && hs[1] == x;
        assert Found(hs, at) == Some(0);
        assert NextOf(hs, at) == [x];
      } else if x.loc == at {
        var st' := st.(hold := Some(x));
        assert Walk(es, p, at, sel, o, st) == Walk(es[1..], p, at, sel, o, st');
        WalkNext(es[1..], p, at, sel, o, st');
        assert Held(st'.hold) + rest == hs;
      } else {
        assert Walk(es, p, at, sel, o, st) == Walk(es[1..], p, at, sel, o, st);
        WalkNext(es[1..], p, at, sel, o, st);
        assert Held(st.hold) + rest == rest;
        NextOfSkip(x, rest, at);
        assert hs == [x] + rest;
      }
    }
  }

  /** In prev mode the walk holds the latest match and emits it on reaching
      the first match at the location. */
  lemma {:induction false} WalkPrev(es: seq<E.Entry>, p: Params, at: L.Loc, sel: Selector, o: SM.Oracle, st: State)
    requires p.prev
    requires st.hold.Some? ==> st.hold.value.loc != at
    ensures Walk(es, p, at, sel, o, st).ents == st.ents + PrevOf(Held(st.hold) + Matches(es, sel, o), at)
    decreases |es|
  {
    var ms := Matches(es, sel, o);
    var hs := Held(st.hold) + ms;
    if |es| == 0 {
      assert hs == Held(st.hold);
    } else if !Selects(sel, es[0], o) {
      MatchesCons(es, sel, o);
      WalkPrev(es[1..], p, at, sel, o, st);
    } else {
      var x := es[0];
      var rest := Matches(es[1..], sel, o);
      assert ms == [x] + rest by {
        MatchesCons(es, sel, o);
      }
      if x.loc == at {
        if st.hold.Some? {
          assert Walk(es, p, at, sel, o, st).ents == st.ents + [st.hold.value];
          assert hs[0] == st.hold.value && hs[1] == x;
          assert Found(hs, at) == Some(1);
        } else {
          assert Walk(es, p, at, sel, o, st).ents == st.ents;
          assert hs[0] == x;
          assert Found(hs, at) == Some(0);
        }
      } else {
        var st' := st.(hold := Some(x));
        assert Walk(es, p, at, sel, o, st) == Walk(es[1..], p, at, sel, o, st');
        WalkPrev(es[1..], p, at, sel, o, st');
        if st.hold.Some? {
          PrevOfSkip(st.hold.value, x, rest, at);
          assert hs == [st.hold.value] + ([x] + rest);
        } else {
          assert hs == [x] + rest;
        }
      }
    }
  }

  // ------------------------------------------------------------- meanings

  /** Listing returns every match in index order, or the search tag's error. */
  lemma ResolveListMeaning(what: E.Entry, idx: I.Index, o: SM.Oracle)
    ensures SelectorOf(what, o).Err? ==> ResolveList(what, idx, o) == Err(InvalidSearchTag)
    ensures SelectorOf(what, o).Ok? ==>
      ResolveList(what, idx, o) == Ok(Matches(idx.entries, SelectorOf(what, o).value, o))
  {
    if SelectorOf(what, o).Ok? {
      var sel := SelectorOf(what, o).value;
      var q := if sel.BySearch? then NoFlags.(next := false, prev := false) else NoFlags;
      assert q == NoFlags;
      var st := Walk(idx.entries, q, what.loc, sel, o, State(None, []));
      assert st.ents == Matches(idx.entries, sel, o) by {
        WalkList(idx.entries, q, what.loc, sel, o, State(None, []));
      }
      assert Resolve(what, idx, NoFlags, o) == Ok(st.ents);
    }
  }

  /** One unfolding of Resolve for flags that do not conflict and a tag
      whose selector compiles. */
  lemma ResolveUnfold(what: E.Entry, idx: I.Index, p: Params, o: SM.Oracle)
    requires !(p.next && p.prev) && SelectorOf(what, o).Ok?
    ensures var sel := SelectorOf(what, o).value;
      var q := if sel.BySearch? then p.(next := false, prev := false) else p;
      var ents := Walk(idx.entries, q, what.loc, sel, o, State(None, [])).ents;
      Resolve(what, idx, p, o) ==
        if q.cycle && |ents| == 0 && q.next then Resolve(what, idx, NoFlags.(first := true), o)
        else if q.cycle && |ents| == 0 && q.prev then Resolve(what, idx, NoFlags.(last := true), o)
        else if q.last && |ents| > 0 then Ok([ents[|ents| - 1]])
        else Ok(ents)
  {
  }

  /** Walking in first or last mode gives at most the first or last match. */
  lemma ResolveEnds(what: E.Entry, idx: I.Index, o: SM.Oracle)
    requires SelectorOf(what, o).Ok?
    ensures Resolve(what, idx, NoFlags.(first := true), o) ==
      Ok(FirstOf(Matches(idx.entries, SelectorOf(what, o).value, o)))
    ensures Resolve(what, idx, NoFlags.(last := true), o) ==
      Ok(LastOf(Matches(idx.entries, SelectorOf(what, o).value, o)))
  {
    var sel := SelectorOf(what, o).value;
    var ms := Matches(idx.entries, sel, o);
    var pf := NoFlags.(first := true);
    var pl := NoFlags.(last := true);
    var none := State(None, []);
    assert Resolve(what, idx, pf, o) == Ok(FirstOf(ms)) by {
      ResolveUnfold(what, idx, pf, o);
      assert (if sel.BySearch? then pf.(next := false, prev := false) else pf) == pf;
      var ents := Walk(idx.entries, pf, what.loc, sel, o, none).ents;
      assert ents == FirstOf(ms) by {
        WalkFirst(idx.entries, pf, what.loc, sel, o, none);
        assert none.ents + FirstOf(ms) == FirstOf(ms);
      }
    }
    assert Resolve(what, idx, pl, o) == Ok(LastOf(ms)) by {
      ResolveUnfold(what, idx, pl, o);
      assert (if sel.BySearch? then pl.(next := false, prev := false) else pl) == pl;
      var ents := Walk(idx.entries, pl, what.loc, sel, o, none).ents;
      assert ents == ms by {
        WalkList(idx.entries, pl, what.loc, sel, o, none);
        assert none.ents + ms == ms;
      }
    }
  }

  /** Next: for a plain tag, the match after the first match at the tag's
      location, or with cycling and no such match, the first match; a search
      tag lists every match instead. */
  lemma ResolveNextMeaning(what: E.Entry, idx: I.Index, cycle: bool, o: SM.Oracle)
    requires SelectorOf(what, o).Ok?
    ensures var ms := Matches(idx.entries, SelectorOf(what, o).value, o);
      ResolveNext(what, idx, cycle, o) ==
        if E.IsSearch(what).1 then Ok(ms)
        else if cycle && NextOf(ms, what.loc) == [] then Ok(FirstOf(ms))
        else Ok(NextOf(ms, what.loc))
  {
    var sel := SelectorOf(what, o).value;
    var ms := Matches(idx.entries, sel, o);
    var p := NoFlags.(next := true, cycle := cycle);
    var none := State(None, []);
    ResolveUnfold(what, idx, p, o);
    if sel.BySearch? {
      var q := p.(next := false, prev := false);
      assert Walk(idx.entries, q, what.loc, sel, o, none).ents == ms by {
        WalkList(idx.entries, q, what.loc, sel, o, none);
        assert none.ents + ms == ms;
      }
    } else {
      assert Walk(idx.entries, p, what.loc, sel, o, none).ents == NextOf(ms, what.loc) by {
        WalkNext(idx.entries, p, what.loc, sel, o, none);
        assert Held(None) + ms == ms;
        assert none.ents + NextOf(ms, what.loc) == NextOf(ms, what.loc);
      }
      assert Resolve(what, idx, NoFlags.(first := true), o) == Ok(FirstOf(ms)) by {
        ResolveEnds(what, idx, o);
      }
    }
  }

  /** Prev: for a plain tag, the match before the first match at the tag's
      location, or with cycling and no such match, the last match; a search
      tag lists every match instead. */
  lemma ResolvePrevMeaning(what: E.Entry, idx: I.Index, cycle: bool, o: SM.Oracle)
    requires SelectorOf(what, o).Ok?
    ensures var ms := Matches(idx.entries, SelectorOf(what, o).value, o);
      ResolvePrev(what, idx, cycle, o) ==
        if E.IsSearch(what).1 then Ok(ms)
        else if cycle && PrevOf(ms, what.loc) == [] then Ok(LastOf(ms))
        else Ok(PrevOf(ms, what.loc))
  {
    var sel := SelectorOf(what, o).value;
    var ms := Matches(idx.entries, sel, o);
    var p := NoFlags.(prev := true, cycle := cycle);
    var none := State(None, []);
    ResolveUnfold(what, idx, p, o);
    if sel.BySearch? {
      var q := p.(next := false, prev := false);
      assert Walk(idx.entries, q, what.loc, sel, o, none).ents == ms by {
        WalkList(idx.entries, q, what.loc, sel, o, none);
        assert none.ents + ms == ms;
      }
    } else {
      assert Walk(idx.entries, p, what.loc, sel, o, none).ents == PrevOf(ms, what.loc) by {
        WalkPrev(idx.entries, p, what.loc, sel, o, none);
        assert Held(None) + ms == ms;
        assert none.ents + PrevOf(ms, what.loc) == PrevOf(ms, what.loc);
      }
      assert Resolve(what, idx, NoFlags.(last := true), o) == Ok(LastOf(ms)) by {
        ResolveEnds(what, idx, o);
      }
    }
  }

  /** Stepping from a plain tag, or taking the first or last match, gives
      at most one entry. */
  lemma StepsGiveAtMostOne(what: E.Entry, idx: I.Index, cycle: bool, o: SM.Oracle)
    requires !E.IsSearch(what).1
    ensures ResolveNext(what, idx, cycle, o).Ok? && |ResolveNext(what, idx, cycle, o).value| <= 1
    ensures ResolvePrev(what, idx, cycle, o).Ok? && |ResolvePrev(what, idx, cycle, o).value| <= 1
  {
    ResolveNextMeaning(what, idx, cycle, o);
    ResolvePrevMeaning(what, idx, cycle, o);
  }

  /** With distinct locations among the matches, stepping back from the
      match after the tag returns to the tag's match. */
  lemma PrevUndoesNext(ms: seq<E.Entry>, at: L.Loc)
    requires forall i, j :: 0 <= i < j < |ms| ==> ms[i].loc != ms[j].loc
    requires NextOf(ms, at) != []
    ensures PrevOf(ms, NextOf(ms, at)[0].loc) == [ms[Found(ms, at).value]]
    ensures ms[Found(ms, at).value].loc == at
  {
    var k := Found(ms, at).value;
    var y := ms[k + 1];
    assert Found(ms, y.loc) == Some(k + 1);
  }

  lemma {:induction false} AllMatch(es: seq<E.Entry>, sel: Selector, o: SM.Oracle)
    requires forall k :: 0 <= k < |es| ==> Selects(sel, es[k], o)
    ensures Matches(es, sel, o) == es
  {
    if |es| > 0 {
      AllMatch(es[1..], sel, o);
    }
  }

  /** Three tags of one name at L1 < L2 < L3 in one file: from L2 next is L3
      and prev is L1; cycling wraps from L3 to L1 and from L1 to L3. */
  lemma ThreeTags(a: E.Entry, b: E.Entry, c: E.Entry, o: SM.Oracle)
    requires a == E.Entry("x", map[], L.Loc("f", 1, 1, 2))
    requires b == E.Entry("x", map[], L.Loc("f", 2, 1, 2))
    requires c == E.Entry("x", map[], L.Loc("f", 3, 1, 2))
    ensures ResolveNext(b, I.Index([a, b, c]), false, o) == Ok([c])
    ensures ResolvePrev(b, I.Index([a, b, c]), false, o) == Ok([a])
    ensures ResolveNext(c, I.Index([a, b, c]), false, o) == Ok([])
    ensures ResolveNext(c, I.Index([a, b, c]), true, o) == Ok([a])
    ensures ResolvePrev(a, I.Index([a, b, c]), true, o) == Ok([c])
  {
    var es := [a, b, c];
    var idx := I.Index(es);
    forall w | w in {a, b, c}
      ensures SelectorOf(w, o) == Ok(ByName(w))
      ensures Matches(es, ByName(w), o) == es
    {
      AllMatch(es, ByName(w), o);
    }
    assert Found(es, b.loc) == Some(1);
    assert Found(es, c.loc) == Some(2) by {
      assert es[0].loc != c.loc && es[1].loc != c.loc && es[2] == c;
    }
    assert Found(es, a.loc) == Some(0);
    assert ResolveNext(b, idx, false, o) == Ok([c]) by {
      ResolveNextMeaning(b, idx, false, o);
    }
    assert ResolvePrev(b, idx, false, o) == Ok([a]) by {
      ResolvePrevMeaning(b, idx, false, o);
    }
    assert ResolveNext(c, idx, false, o) == Ok([]) by {
      ResolveNextMeaning(c, idx, false, o);
    }
    assert ResolveNext(c, idx, true, o) == Ok([a]) by {
      ResolveNextMeaning(c, idx, true, o);
    }
    assert ResolvePrev(a, idx, true, o) == Ok([c]) by {
      ResolvePrevMeaning(a, idx, true, o);
    }
  }
}
