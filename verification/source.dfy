/** Entry sources and their filter (pkg/clutter/clutterindex/filter.go): a
    source is pulled for one entry at a time until it reports the end or an
    error, the filter collects the entries a predicate includes, and
    NewEntriesFilter builds that predicate from name and attribute patterns.
    A source is modelled by the finite list of answers it gives. */
module Sources {
  import opened Wrappers
  import opened Strs
  import opened Attributes
  import E = Entries
  import I = Index
  import SM = StrMatcher

  /** One answer of `next`: an entry, the end (a nil entry), or an error. */
  datatype Pull = Next(entry: E.Entry) | Done | Failed(error: I.ReadError)

  /** The answers of a slice source over the entries left. */
  function SlicePulls(rest: seq<E.Entry>): (ps: seq<Pull>)
    ensures |ps| == |rest| + 1
    ensures forall k :: 0 <= k < |rest| ==> ps[k] == Next(rest[k])
    ensures ps[|rest|] == Done
  {
    if |rest| == 0 then [Done] else [Next(rest[0])] + SlicePulls(rest[1..])
  }

  // ------------------------------------------------------------ the filter

  /** NewEntriesFilter's error: a name or an attribute pattern that does not
      compile; both are reported as invalid name matchers. */
  datatype NewFilterError = InvalidNameMatchers(cause: SM.PatternError)

  /** The inner loop: does the matcher accept one of the strings? */
  function FoundIn(a: SM.Matcher, bs: seq<string>, o: SM.Oracle): (found: bool)
    ensures found <==> exists j :: 0 <= j < |bs| && SM.Accepts(a, bs[j], o)
  {
    if |bs| == 0 then false
    else if SM.Accepts(a, bs[0], o) then true
    else
      assert forall j :: 1 <= j < |bs| ==> bs[1..][j - 1] == bs[j];
      FoundIn(a, bs[1..], o)
  }

  /** The outer loop: is every attribute matcher found among the strings? */
  function AllFound(am: seq<SM.Matcher>, bs: seq<string>, o: SM.Oracle): (r: bool)
    ensures r <==> forall i :: 0 <= i < |am| ==> FoundIn(am[i], bs, o)
  {
    if |am| == 0 then true
    else if !FoundIn(am[0], bs, o) then false
    else
      assert forall i :: 1 <= i < |am| ==> am[1..][i - 1] == am[i];
      AllFound(am[1..], bs, o)
  }

  /** The compiled filter: a name some name matcher accepts, unless no name
      was given, and every attribute matcher accepting one of the strings of
      the attributes with the location. */
  predicate Admits(names: seq<string>, nm: seq<SM.Matcher>, am: seq<SM.Matcher>,
                   strings: Attrs -> seq<string>, o: SM.Oracle, e: E.Entry)
  {
    (|names| == 0 || SM.Any(nm, e.name, o)) && AllFound(am, strings(E.AttrsWithLoc(e)), o)
  }

  /** NewEntriesFilter: compile the name patterns, then the attribute
      patterns; `strings` renders attributes as the strings patterns see. */
  function NewEntriesFilter(kind: SM.Kind, names: seq<string>, attrs: seq<string>,
                            strings: Attrs -> seq<string>, o: SM.Oracle)
    : (r: Result<E.Entry -> bool, NewFilterError>)
    ensures r.Err? <==> SM.NewMatchers(kind, names, o).Err? || SM.NewMatchers(kind, attrs, o).Err?
    ensures SM.NewMatchers(kind, names, o).Err? ==>
      r == Err(InvalidNameMatchers(SM.NewMatchers(kind, names, o).error))
    ensures SM.NewMatchers(kind, names, o).Ok? && SM.NewMatchers(kind, attrs, o).Err? ==>
      r == Err(InvalidNameMatchers(SM.NewMatchers(kind, attrs, o).error))
  {
    match SM.NewMatchers(kind, names, o)
    case Err(e) => Err(InvalidNameMatchers(e))
    case Ok(nm) =>
      match SM.NewMatchers(kind, attrs, o)
      case Err(e) => Err(InvalidNameMatchers(e))
      case Ok(am) => Ok((e: E.Entry) => Admits(names, nm, am, strings, o, e))
  }

  /** A pattern accepts a text: it compiles, and the matcher accepts it. */
  predicate PatternAccepts(kind: SM.Kind, p: string, text: string, o: SM.Oracle) {
    SM.Compile(kind, p, o).Ok? && SM.Accepts(SM.Compile(kind, p, o).value, text, o)
  }

  /** What a filter admits, in terms of the patterns: some name pattern
      accepts the name (any name when none is given), and every attribute
      pattern accepts some string of the attributes with the location. */
  lemma NewEntriesFilterMeaning(kind: SM.Kind, names: seq<string>, attrs: seq<string>,
                                strings: Attrs -> seq<string>, o: SM.Oracle, e: E.Entry)
    requires NewEntriesFilter(kind, names, attrs, strings, o).Ok?
    ensures NewEntriesFilter(kind, names, attrs, strings, o).value(e) <==>
      && (|names| == 0 || exists i :: 0 <= i < |names| && PatternAccepts(kind, names[i], e.name, o))
      && forall i :: 0 <= i < |attrs| ==>
           exists j :: 0 <= j < |strings(E.AttrsWithLoc(e))| &&
             PatternAccepts(kind, attrs[i], strings(E.AttrsWithLoc(e))[j], o)
  {
    var nm := SM.NewMatchers(kind, names, o).value;
    var am := SM.NewMatchers(kind, attrs, o).value;
    var bs := strings(E.AttrsWithLoc(e));
    assert forall i :: 0 <= i < |names| ==> SM.Compile(kind, names[i], o).value == nm[i];
    assert forall i :: 0 <= i < |attrs| ==> SM.Compile(kind, attrs[i], o).value == am[i];
  }

  /** SliceSource: the entries of the index in order, then the end. */
  function SliceSource(i: I.Index): seq<Pull> {
    SlicePulls(i.entries)
  }

  /** The line number an error of FileSource reports: the counter that is
      set to 1 and never advanced, or the physical line. */
  datatype Numbering = StaysAtOne | Physical

  function Reported(nb: Numbering, n: int): int {
    match nb
    case StaysAtOne => 1
    case Physical => n
  }

  /** FileSource's `next`, pulled until it ends, over the lines numbered from n. */
  function FilePulls(lines: seq<string>, n: int, first: bool, m: I.MarkerCheck, nb: Numbering, c: I.Records)
    : (ps: seq<Pull>)
    ensures |ps| >= 1
    decreases |lines|
  {
    if |lines| == 0 then [Done]
    else
      var text := TrimSpace(lines[0]);
      if text == "" then FilePulls(lines[1..], n + 1, first, m, nb, c)
      else if first then
        if !I.IsHeader(m, text) then [Failed(I.MissingVersionMarker)]
        else FilePulls(lines[1..], n + 1, false, m, nb, c)
      else
        match c.unmarshal(text)
        case Err(e) => [Failed(I.BadLine(Reported(nb, n), e))]
        case Ok(ent) => [Next(ent)] + FilePulls(lines[1..], n + 1, false, m, nb, c)
  }

  /** FileSource as written: the header must be the marker alone, and a
      record error always names line 1. */
  function FileSourceAsWritten(text: string, c: I.Records): seq<Pull> {
    FilePulls(Split(text, '\n'), 1, true, I.MarkerAlone, StaysAtOne, c)
  }

  /** FileSource accepting every header that Write writes and naming the
      line a record error is on. */
  function FileSource(text: string, c: I.Records): seq<Pull> {
    FilePulls(Split(text, '\n'), 1, true, I.EitherForm, Physical, c)
  }

  /** The error of Filter: the source's, wrapped under "source", or the
      predicate's, wrapped under "filter". */
  datatype FilterError = SourceFailed(cause: I.ReadError) | FilterFailed(msg: string)

  /** The loop of Filter: pull until the end, stop at the first error. */
  function Collect(ps: seq<Pull>, f: E.Entry -> (bool, Option<string>)): (r: Result<seq<E.Entry>, FilterError>)
    ensures r.Ok? ==> |r.value| <= |ps|
    ensures r.Ok? ==> forall x :: x in r.value ==> Next(x) in ps && f(x).0
    decreases |ps|
  {
    if |ps| == 0 then Ok([])
    else
      match ps[0]
      case Failed(e) => Err(SourceFailed(e))
      case Done => Ok([])
      case Next(ent) =>
        var (incl, err) := f(ent);
        if err.Some? then Err(FilterFailed(err.value))
        else
          match Collect(ps[1..], f)
          case Err(e) => Err(e)
          case Ok(rest) =>
            assert forall x :: Next(x) in ps[1..] ==> Next(x) in ps;
            Ok(if incl then [ent] + rest else rest)
  }

  /** The predicate a nil filter stands for. */
  function AcceptAll(e: E.Entry): (bool, Option<string>) {
    (true, None)
  }

  /** Filter: a nil filter includes every entry; the result is not re-sorted. */
  function Filter(ps: seq<Pull>, filter: Option<E.Entry -> (bool, Option<string>)>): (r: Result<I.Index, FilterError>)
    ensures r.Ok? ==> |r.value.entries| <= |ps|
  {
    var f := if filter.None? then AcceptAll else filter.value;
    match Collect(ps, f)
    case Err(e) => Err(e)
    case Ok(es) => Ok(I.Index(es))
  }

  /** The predicate ForEach filters with: nothing is kept, and fn's error
      is the predicate's. */
  function Visit(fn: E.Entry -> Option<string>): E.Entry -> (bool, Option<string>) {
    (e: E.Entry) => (false, fn(e))
  }

  /** ForEach: every pulled entry goes to fn until fn or the source errs. */
  function ForEach(ps: seq<Pull>, fn: E.Entry -> Option<string>): (r: Option<FilterError>)
    ensures r.None? <==> Filter(ps, Some(Visit(fn))).Ok?
  {
    match Filter(ps, Some(Visit(fn)))
    case Err(e) => Some(e)
    case Ok(_) => None
  }

  // ---------------------------------------------------- what Filter returns

  /** Where pulling stops: the first answer that is not an entry, or the
      first entry the predicate errs on; the number of answers if neither. */
  function Halt(ps: seq<Pull>, f: E.Entry -> (bool, Option<string>)): (h: nat)
    ensures h <= |ps|
    ensures forall k :: 0 <= k < h ==> ps[k].Next? && f(ps[k].entry).1.None?
    ensures h < |ps| ==> !ps[h].Next? || f(ps[h].entry).1.Some?
  {
    if |ps| == 0 then 0
    else if !ps[0].Next? || f(ps[0].entry).1.Some? then 0
    else 1 + Halt(ps[1..], f)
  }

  /** What one answer adds to the kept entries: its entry, if included. */
  function Keep(p: Pull, f: E.Entry -> (bool, Option<string>)): seq<E.Entry> {
    if p.Next? && f(p.entry).0 then [p.entry] else []
  }

  /** The pulled entries the predicate includes, in the order pulled. */
  function Kept(ps: seq<Pull>, f: E.Entry -> (bool, Option<string>)): (r: seq<E.Entry>)
    ensures |r| <= |ps|
    ensures forall x :: x in r ==> Next(x) in ps && f(x).0
  {
    if |ps| == 0 then []
    else
      var init, last := ps[..|ps| - 1], ps[|ps| - 1];
      assert forall x :: Next(x) in init ==> Next(x) in ps;
      Kept(init, f) + Keep(last, f)
  }

  /** What Filter's loop returns: the source's error or the predicate's,
      whichever comes first, and otherwise the included entries pulled
      before the end. */
  function Collected(ps: seq<Pull>, f: E.Entry -> (bool, Option<string>)): Result<seq<E.Entry>, FilterError> {
    var h := Halt(ps, f);
    if h < |ps| && ps[h].Failed? then Err(SourceFailed(ps[h].error))
    else if h < |ps| && ps[h].Next? then Err(FilterFailed(f(ps[h].entry).1.value))
    else Ok(Kept(ps[..h], f))
  }

  // ------------------------------------------------------------- properties

  /** Putting one answer in front of the pulls puts its entry, if included,
      in front of what is kept. */
  lemma {:induction false} KeptCons(p: Pull, qs: seq<Pull>, f: E.Entry -> (bool, Option<string>))
    ensures Kept([p] + qs, f) == Keep(p, f) + Kept(qs, f)
    decreases |qs|
  {
    if |qs| == 0 {
      KeptLast([p] + qs, f);
      assert ([p] + qs)[..0] == [];
    } else {
      var init, last := qs[..|qs| - 1], qs[|qs| - 1];
      var a, b, c := Keep(p, f), Kept(init, f), Keep(last, f);
      assert Kept([p] + qs, f) == Kept([p] + init, f) + c by {
        KeptLast([p] + qs, f);
        assert ([p] + qs)[..|qs|] == [p] + init;
      }
      assert Kept([p] + init, f) == a + b by {
        KeptCons(p, init, f);
      }
      assert Kept(qs, f) == b + c by {
        KeptLast(qs, f);
      }
      AppendAssoc(a, b, c);
    }
  }

  /** Concatenation regroups. */
  lemma AppendAssoc<T>(a: seq<T>, b: seq<T>, c: seq<T>)
    ensures (a + b) + c == a + (b + c)
  {
  }

  /** Kept takes the last answer's contribution after the others'. */
  lemma KeptLast(ps: seq<Pull>, f: E.Entry -> (bool, Option<string>))
    requires |ps| > 0
    ensures Kept(ps, f) == Kept(ps[..|ps| - 1], f) + Keep(ps[|ps| - 1], f)
  {
  }

  /** The reference past one entry the predicate does not err on: that
      entry, if included, in front of what the rest gives. */
  lemma CollectedStep(ps: seq<Pull>, f: E.Entry -> (bool, Option<string>))
    requires |ps| > 0 && ps[0].Next? && f(ps[0].entry).1.None?
    ensures Collected(ps, f) ==
      match Collected(ps[1..], f)
      case Err(e) => Err(e)
      case Ok(rest) => Ok((if f(ps[0].entry).0 then [ps[0].entry] else []) + rest)
  {
    var rest := ps[1..];
    var h, h' := Halt(ps, f), Halt(rest, f);
    assert h == 1 + h';
    assert h < |ps| ==> ps[h] == rest[h'];
    assert ps[..h] == [ps[0]] + rest[..h'];
    KeptCons(ps[0], rest[..h'], f);
  }

  /** Filter's loop returns what the reference says: the first error, from
      the source or the predicate, or else every included entry pulled
      before the end, in the order pulled. */
  lemma {:induction false} CollectMeaning(ps: seq<Pull>, f: E.Entry -> (bool, Option<string>))
    ensures Collect(ps, f) == Collected(ps, f)
    decreases |ps|
  {
    if |ps| > 0 && ps[0].Next? && f(ps[0].entry).1.None? {
      var ent := ps[0].entry;
      CollectMeaning(ps[1..], f);
      CollectedStep(ps, f);
      assert Collect(ps, f) ==
        match Collect(ps[1..], f)
        case Err(e) => Err(e)
        case Ok(rest) => Ok(if f(ent).0 then [ent] + rest else rest);
      if Collect(ps[1..], f).Ok? {
        var rest := Collect(ps[1..], f).value;
        assert [] + rest == rest;
      }
    } else if |ps| > 0 {
      assert Halt(ps, f) == 0 && ps[..0] == [];
    }
  }

  /** ForEach reports the first error, from the source or from fn, and no
      error when the source ends before either. */
  lemma ForEachReportsFirstError(ps: seq<Pull>, fn: E.Entry -> Option<string>)
    ensures var h := Halt(ps, Visit(fn));
      ForEach(ps, fn) ==
        if h < |ps| && ps[h].Failed? then Some(SourceFailed(ps[h].error))
        else if h < |ps| && ps[h].Next? then Some(FilterFailed(fn(ps[h].entry).value))
        else None
  {
    CollectMeaning(ps, Visit(fn));
  }

  lemma {:induction false} CollectSlice(es: seq<E.Entry>)
    ensures Collect(SlicePulls(es), AcceptAll) == Ok(es)
  {
    if |es| > 0 {
      CollectSlice(es[1..]);
      assert es == [es[0]] + es[1..];
    }
  }

  /** Pulling a slice source with a nil filter gives back the index. */
  lemma SliceSourceRoundTrip(i: I.Index)
    ensures Filter(SliceSource(i), None) == Ok(i)
  {
    CollectSlice(i.entries);
  }

  /** A callback that never errs is called on every entry of a slice source. */
  lemma {:induction false} ForEachVisitsAll(es: seq<E.Entry>, fn: E.Entry -> Option<string>)
    requires forall k :: 0 <= k < |es| ==> fn(es[k]).None?
    ensures ForEach(SlicePulls(es), fn).None?
  {
    if |es| > 0 {
      assert forall k :: 0 <= k < |es[1..]| ==> es[1..][k] == es[k + 1];
      ForEachVisitsAll(es[1..], fn);
    }
  }

  /** ForEach reports the first callback error, on the first entry. */
  lemma ForEachStopsAtFirstError(i: I.Index, fn: E.Entry -> Option<string>)
    requires |i.entries| > 0 && fn(i.entries[0]).Some?
    ensures ForEach(SliceSource(i), fn) == Some(FilterFailed(fn(i.entries[0]).value))
  {
  }

  /** With a nil filter, a file source reads what the index's ReadFile reads,
      before ReadFile sorts it, and fails where ReadFile fails. */
  lemma {:induction false} FilePullsAgreeWithReadLines(lines: seq<string>, n: int, first: bool, m: I.MarkerCheck, c: I.Records)
    ensures Collect(FilePulls(lines, n, first, m, Physical, c), AcceptAll) ==
      match I.ReadLines(lines, n, first, m, c)
      case Err(e) => Err(SourceFailed(e))
      case Ok(es) => Ok(es)
  {
    ReadsAgree(lines, n, first, m, c);
  }

  lemma {:induction false} ReadsAgree(lines: seq<string>, n: int, first: bool, m: I.MarkerCheck, c: I.Records)
    ensures Agree(lines, n, first, m, c)
    decreases |lines|
  {
    if |lines| > 0 {
      var text := TrimSpace(lines[0]);
      if text == "" {
        assert Agree(lines[1..], n + 1, first, m, c) by {
          ReadsAgree(lines[1..], n + 1, first, m, c);
        }
        AgreeBlank(lines, n, first, m, c);
      } else if first && I.IsHeader(m, text) {
        assert Agree(lines[1..], n + 1, false, m, c) by {
          ReadsAgree(lines[1..], n + 1, false, m, c);
        }
        AgreeHeader(lines, n, m, c);
      } else if first {
        AgreeNoHeader(lines, n, m, c);
      } else if c.unmarshal(text).Ok? {
        assert Agree(lines[1..], n + 1, false, m, c) by {
          ReadsAgree(lines[1..], n + 1, false, m, c);
        }
        AgreeRecord(lines, n, m, c);
      } else {
        AgreeBadRecord(lines, n, m, c);
      }
    }
  }

  /** The file source and the scan loop read the same lines the same way. */
  predicate Agree(lines: seq<string>, n: int, first: bool, m: I.MarkerCheck, c: I.Records) {
    Collect(FilePulls(lines, n, first, m, Physical, c), AcceptAll) ==
      match I.ReadLines(lines, n, first, m, c)
      case Err(e) => Err(SourceFailed(e))
      case Ok(es) => Ok(es)
  }

  lemma AgreeBlank(lines: seq<string>, n: int, first: bool, m: I.MarkerCheck, c: I.Records)
    requires |lines| > 0 && TrimSpace(lines[0]) == ""
    requires Agree(lines[1..], n + 1, first, m, c)
    ensures Agree(lines, n, first, m, c)
  {
    assert FilePulls(lines, n, first, m, Physical, c) == FilePulls(lines[1..], n + 1, first, m, Physical, c);
    assert I.ReadLines(lines, n, first, m, c) == I.ReadLines(lines[1..], n + 1, first, m, c);
  }

  lemma AgreeHeader(lines: seq<string>, n: int, m: I.MarkerCheck, c: I.Records)
    requires |lines| > 0 && TrimSpace(lines[0]) != "" && I.IsHeader(m, TrimSpace(lines[0]))
    requires Agree(lines[1..], n + 1, false, m, c)
    ensures Agree(lines, n, true, m, c)
  {
    assert FilePulls(lines, n, true, m, Physical, c) == FilePulls(lines[1..], n + 1, false, m, Physical, c);
    assert I.ReadLines(lines, n, true, m, c) == I.ReadLines(lines[1..], n + 1, false, m, c);
  }

  lemma AgreeNoHeader(lines: seq<string>, n: int, m: I.MarkerCheck, c: I.Records)
    requires |lines| > 0 && TrimSpace(lines[0]) != "" && !I.IsHeader(m, TrimSpace(lines[0]))
    ensures Agree(lines, n, true, m, c)
  {
    assert FilePulls(lines, n, true, m, Physical, c) == [Failed(I.MissingVersionMarker)];
    assert I.ReadLines(lines, n, true, m, c) == Err(I.MissingVersionMarker);
  }

  lemma AgreeBadRecord(lines: seq<string>, n: int, m: I.MarkerCheck, c: I.Records)
    requires |lines| > 0 && TrimSpace(lines[0]) != "" && c.unmarshal(TrimSpace(lines[0])).Err?
    ensures Agree(lines, n, false, m, c)
  {
    var e := c.unmarshal(TrimSpace(lines[0])).error;
    assert FilePulls(lines, n, false, m, Physical, c) == [Failed(I.BadLine(n, e))];
    assert I.ReadLines(lines, n, false, m, c) == Err(I.BadLine(n, e));
  }

  lemma AgreeRecord(lines: seq<string>, n: int, m: I.MarkerCheck, c: I.Records)
    requires |lines| > 0 && TrimSpace(lines[0]) != "" && c.unmarshal(TrimSpace(lines[0])).Ok?
    requires Agree(lines[1..], n + 1, false, m, c)
    ensures Agree(lines, n, false, m, c)
  {
    var ent := c.unmarshal(TrimSpace(lines[0])).value;
    var rest := FilePulls(lines[1..], n + 1, false, m, Physical, c);
    var ps := FilePulls(lines, n, false, m, Physical, c);
    assert ps == [Next(ent)] + rest;
    assert ps[1..] == rest;
  }

  lemma FileSourceAgreesWithReadFile(text: string, c: I.Records)
    ensures Filter(FileSource(text, c), None).Ok? <==> I.ReadFile(text, c).Ok?
    ensures I.ReadFile(text, c).Err? ==> Filter(FileSource(text, c), None) == Err(SourceFailed(I.ReadFile(text, c).error))
    ensures I.ReadFile(text, c).Ok? ==>
      I.NewIndex(Filter(FileSource(text, c), None).value.entries) == I.ReadFile(text, c).value
  {
    FilePullsAgreeWithReadLines(Split(text, '\n'), 1, true, I.EitherForm, c);
  }

  /** A record error from a file source is the scan loop's error over the
      lines of the file numbered from 1. */
  lemma FileSourceFailsLikeReadLines(text: string, c: I.Records, k: int, e: E.RecordError)
    requires Filter(FileSource(text, c), None) == Err(SourceFailed(I.BadLine(k, e)))
    ensures I.ReadLines(Split(text, '\n'), 1, true, I.EitherForm, c) == Err(I.BadLine(k, e))
  {
    FileSourceAgreesWithReadFile(text, c);
  }

  /** A record error from a file source names the physical line, counting
      from 1, of the first record that does not unmarshal: every line before
      it is blank, the header, or a record that reads. */
  lemma FileSourceReportsPhysicalLine(text: string, c: I.Records, k: int, e: E.RecordError)
    requires Filter(FileSource(text, c), None) == Err(SourceFailed(I.BadLine(k, e)))
    ensures var lines := Split(text, '\n');
      && 1 <= k <= |lines|
      && TrimSpace(lines[k - 1]) != "" && !I.HeaderPending(lines, k - 1, true)
      && c.unmarshal(TrimSpace(lines[k - 1])) == Err(e)
      && forall j :: 0 <= j < k - 1 ==> I.LineReads(lines, j, true, I.EitherForm, c)
  {
    FileSourceFailsLikeReadLines(text, c, k, e);
    I.ReadLinesReportsLine(Split(text, '\n'), 1, true, I.EitherForm, c, k, e);
  }

  /** Reading a written index through a file source gives it back, less
      empty scopes, whatever the comment. */
  lemma FileSourceReadsWhatWasWritten(i: I.Index, comment: string, c: I.Records)
    requires forall k :: 0 <= k < |i.entries| ==> I.ReadsBack(i.entries[k], c)
    requires forall k :: 0 <= k < |i.entries| ==> '\n' !in c.marshal(i.entries[k])
    requires '\n' !in comment
    ensures Filter(FileSource(I.WriteFile(i, comment, c), c), None) == Ok(I.Index(I.Dropped(i.entries)))
  {
    I.WrittenHeaderChecks(comment);
    I.ReadLinesOfWritten(i, comment, I.EitherForm, c);
    FilePullsAgreeWithReadLines(Split(I.WriteFile(i, comment, c), '\n'), 1, true, I.EitherForm, c);
  }

  /** As written, FileSource refuses the header Write writes for any comment
      that is not blank: the trimmed line is more than the marker. */
  lemma FileSourceAsWrittenRejectsComment(i: I.Index, comment: string, c: I.Records)
    requires !AllSpace(comment) && '\n' !in comment
    ensures Filter(FileSourceAsWritten(I.WriteFile(i, comment, c), c), None) == Err(SourceFailed(I.MissingVersionMarker))
  {
    var h := I.Header(comment);
    var rest := I.WriteEntries(i, c);
    assert I.WriteFile(i, comment, c) == h + ['\n'] + rest;
    SplitCons(h, '\n', rest);
    I.HeaderTrim(comment);
  }

  /** The lines of a header, a blank line and one record. */
  lemma ThreeLines(h: string, rec: string)
    requires '\n' !in h && '\n' !in rec
    ensures Split(h + "\n\n" + rec, '\n') == [h, "", rec]
  {
    var text := h + "\n\n" + rec;
    var tail := ['\n'] + rec;
    assert Split(tail, '\n') == ["", rec] by {
      SplitCons("", '\n', rec);
      assert "" + ['\n'] + rec == tail;
      assert Split(rec, '\n') == [rec];
    }
    assert text == h + ['\n'] + tail;
    SplitCons(h, '\n', tail);
  }

  /** The pulls of those three lines when the record does not decode. */
  lemma PullsOfThree(h: string, rec: string, m: I.MarkerCheck, nb: Numbering, c: I.Records)
    requires h != "" && TrimSpace(h) == h && I.IsHeader(m, h)
    requires rec != "" && TrimSpace(rec) == rec && c.unmarshal(rec).Err?
    ensures FilePulls([h, "", rec], 1, true, m, nb, c)
      == [Failed(I.BadLine(Reported(nb, 3), c.unmarshal(rec).error))]
  {
    var lines := [h, "", rec];
    var last := FilePulls([rec], 3, false, m, nb, c);
    assert last == [Failed(I.BadLine(Reported(nb, 3), c.unmarshal(rec).error))] by {
      assert [rec][1..] == [];
    }
    assert FilePulls(lines[1..], 2, false, m, nb, c) == last by {
      assert TrimSpace(lines[1]) == "";
      assert lines[1..][1..] == [rec];
    }
  }

  /** Filtering the file source of those three lines fails on the record. */
  lemma FilterOfThree(h: string, rec: string, m: I.MarkerCheck, nb: Numbering, c: I.Records)
    requires '\n' !in h && h != "" && TrimSpace(h) == h && I.IsHeader(m, h)
    requires '\n' !in rec && rec != "" && TrimSpace(rec) == rec && c.unmarshal(rec).Err?
    ensures Filter(FilePulls(Split(h + "\n\n" + rec, '\n'), 1, true, m, nb, c), None)
      == Err(SourceFailed(I.BadLine(Reported(nb, 3), c.unmarshal(rec).error)))
  {
    var lines := Split(h + "\n\n" + rec, '\n');
    var err := Failed(I.BadLine(Reported(nb, 3), c.unmarshal(rec).error));
    assert lines == [h, "", rec] by {
      ThreeLines(h, rec);
    }
    assert FilePulls(lines, 1, true, m, nb, c) == [err] by {
      PullsOfThree(h, rec, m, nb, c);
    }
    assert Collect([err], AcceptAll) == Err(SourceFailed(err.error));
  }

  /** As written, a bad record on the third line is reported on line 1;
      counting lines reports line 3. */
  lemma FileSourceAsWrittenMisnumbers(rec: string, c: I.Records)
    requires '\n' !in rec && rec != "" && TrimSpace(rec) == rec && c.unmarshal(rec).Err?
    ensures Filter(FileSourceAsWritten(I.VersionMarker + "\n\n" + rec, c), None)
      == Err(SourceFailed(I.BadLine(1, c.unmarshal(rec).error)))
    ensures Filter(FileSource(I.VersionMarker + "\n\n" + rec, c), None)
      == Err(SourceFailed(I.BadLine(3, c.unmarshal(rec).error)))
  {
    MarkerLine();
    FilterOfThree(I.VersionMarker, rec, I.MarkerAlone, StaysAtOne, c);
    FilterOfThree(I.VersionMarker, rec, I.EitherForm, Physical, c);
  }

  /** The marker alone is a header line under both checks. */
  lemma MarkerLine()
    ensures '\n' !in I.VersionMarker && I.VersionMarker != ""
    ensures TrimSpace(I.VersionMarker) == I.VersionMarker
    ensures I.IsHeader(I.MarkerAlone, I.VersionMarker) && I.IsHeader(I.EitherForm, I.VersionMarker)
  {
    TrimSpaceOfTrimmed(I.VersionMarker);
  }
}
