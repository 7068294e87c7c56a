/** Walking and filtering an index (internal/pkg/index/filter.go): the
    callback keeps or drops each entry in index order, may end the walk early
    by returning ErrStop, and aborts it with any other error. */
module IndexFilter {
  import opened Wrappers
  import E = Entries
  import I = Index

  /** The error a callback returns: nil, ErrStop, or another error. */
  datatype Status = NoError | Stop | Failure(msg: string)

  /** Filter's error: the callback's error, wrapped under "filter". */
  datatype FilterError = FilterFailed(cause: string)

  /** Where the walk halts: the first entry whose callback returns an error,
      ErrStop included, or the end of the entries. */
  function Halt(es: seq<E.Entry>, f: E.Entry -> (bool, Status)): (h: nat)
    ensures h <= |es|
    ensures forall k :: 0 <= k < h ==> f(es[k]).1 == NoError
    ensures h < |es| ==> f(es[h]).1 != NoError
  {
    if |es| == 0 then 0
    else if f(es[0]).1 != NoError then 0
    else 1 + Halt(es[1..], f)
  }

  /** The entries the callback includes, in order. */
  function Included(es: seq<E.Entry>, f: E.Entry -> (bool, Status)): (r: seq<E.Entry>)
    ensures |r| <= |es|
    ensures forall x :: x in r ==> x in es && f(x).0
  {
    if |es| == 0 then []
    else
      var last := es[|es| - 1];
      Included(es[..|es| - 1], f) + (if f(last).0 then [last] else [])
  }

  /** What Filter returns: the callback's error if the walk halts on one
      that is not ErrStop, and otherwise the included entries before the halt. */
  function Filtered(es: seq<E.Entry>, f: E.Entry -> (bool, Status)): Result<I.Index, FilterError> {
    var h := Halt(es, f);
    if h < |es| && f(es[h]).1.Failure? then Err(FilterFailed(f(es[h]).1.msg))
    else Ok(I.Index(Included(es[..h], f)))
  }

  /** Filter: a nil callback returns the index itself; otherwise the entries
      are walked in order. */
  method Filter(idx: I.Index, filter: Option<E.Entry -> (bool, Status)>) returns (r: Result<I.Index, FilterError>)
    ensures filter.None? ==> r == Ok(idx)
    ensures filter.Some? ==> r == Filtered(idx.entries, filter.value)
  {
    if filter.None? {
      return Ok(idx);
    }
    var f := filter.value;
    var es := idx.entries;
    var results: seq<E.Entry> := [];
    var k := 0;
    while k < |es|
      invariant 0 <= k <= |es|
      invariant forall j :: 0 <= j < k ==> f(es[j]).1 == NoError
      invariant results == Included(es[..k], f)
    {
      var (incl, err) := f(es[k]);
      if err == Stop {
        return Ok(I.Index(results));
      }
      if err.Failure? {
        return Err(FilterFailed(err.msg));
      }
      assert es[..k + 1][..k] == es[..k];
      if incl {
        results := results + [es[k]];
      }
      k := k + 1;
    }
    assert es[..k] == es;
    return Ok(I.Index(results));
  }

  /** ForEach: the callback sees the entries in order until it returns an
      error; ErrStop ends the walk without one. */
  method ForEach(idx: I.Index, fn: E.Entry -> Status) returns (r: Option<FilterError>)
    ensures var g := (e: E.Entry) => (false, fn(e));
      var h := Halt(idx.entries, g);
      && (r.None? <==> h == |idx.entries| || fn(idx.entries[h]) == Stop)
      && (r.Some? ==> r.value == FilterFailed(fn(idx.entries[h]).msg))
  {
    var g := (e: E.Entry) => (false, fn(e));
    var res := Filter(idx, Some(g));
    r := if res.Err? then Some(res.error) else None;
  }

  /** Filtering keeps index order: what a filter returns from a sorted index
      is sorted too. */
  lemma {:induction false} IncludedKeepsOrder(es: seq<E.Entry>, f: E.Entry -> (bool, Status))
    requires I.Sorted(es)
    ensures I.Sorted(Included(es, f))
  {
    if |es| > 0 {
      var init := es[..|es| - 1];
      var last := es[|es| - 1];
      assert I.Sorted(init);
      IncludedKeepsOrder(init, f);
      var r := Included(es, f);
      forall i, j | 0 <= i < j < |r| ensures !I.EntryLess(r[j], r[i]) {
        var p := Included(init, f);
        if j == |p| {
          assert r[j] == last && r[i] in init;
          var k :| 0 <= k < |init| && init[k] == r[i];
          assert es[k] == r[i];
        } else {
          assert r[i] == p[i] && r[j] == p[j];
        }
      }
    }
  }

  lemma FilterKeepsOrder(idx: I.Index, f: E.Entry -> (bool, Status))
    requires I.Sorted(idx.entries)
    ensures Filtered(idx.entries, f).Ok? ==> I.Sorted(Filtered(idx.entries, f).value.entries)
  {
    var h := Halt(idx.entries, f);
    assert I.Sorted(idx.entries[..h]);
    IncludedKeepsOrder(idx.entries[..h], f);
  }

  /** A callback that includes everything and never errs returns every entry. */
  lemma {:induction false} IncludeAll(es: seq<E.Entry>, f: E.Entry -> (bool, Status))
    requires forall e :: f(e) == (true, NoError)
    ensures Included(es, f) == es
  {
    if |es| > 0 {
      IncludeAll(es[..|es| - 1], f);
      assert es[..|es| - 1] + [es[|es| - 1]] == es;
    }
  }

  lemma FilterAll(idx: I.Index, f: E.Entry -> (bool, Status))
    requires forall e :: f(e) == (true, NoError)
    ensures Filtered(idx.entries, f) == Ok(idx)
  {
    assert idx.entries[..|idx.entries|] == idx.entries;
    IncludeAll(idx.entries, f);
  }
}
