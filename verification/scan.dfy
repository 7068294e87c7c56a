/** The tag scanners of internal/pkg/scanner (scan_raw.go and scan.go). Each
    match of the bracket pattern on a line is stripped of its delimiters;
    texts starting with `%` are pragmas that switch reporting off (`%stop`)
    and on again (`%cont`), and, in the raw scanner only, end the scan
    (`%stop!`); every other match is handed to a callback together with its
    line and columns. */
module Scanner {
  import opened Wrappers
  import opened Strs
  import L = Locations

  /** BracketConfig: the delimiters that surround a tag, such as `[#` and `#]`. */
  datatype Bracket = Bracket(left: string, right: string)

  /** One match of the bracket pattern: the half-open span [l, r) of its line. */
  datatype Span = Span(l: nat, r: nat)

  /** A line of input with the spans the bracket pattern finds on it, left to right. */
  datatype Line = Line(text: string, spans: seq<Span>)

  /** Spans index into their line, as regexp match indices do. */
  predicate Fits(ln: Line) {
    forall s :: s in ln.spans ==> s.l <= s.r <= |ln.text|
  }

  predicate AllFit(lines: seq<Line>) {
    forall i :: 0 <= i < |lines| ==> Fits(lines[i])
  }

  /** A match's text: the left delimiter, then the right one, removed, and the rest trimmed. */
  function Strip(b: Bracket, text: string): string {
    TrimSpace(TrimSuffix(TrimPrefix(text, b.left), b.right))
  }

  /** A match as the state machine sees it: stripped text, 0-based line, span. */
  datatype Match = Match(text: string, line: nat, span: Span)

  /** Strip for a given bracket, as a value. */
  function Stripper(b: Bracket): string -> string {
    t => Strip(b, t)
  }

  /** The matches of line `i`, in the order the pattern finds them, with
      their texts stripped by `strip`. */
  function LineMatches(strip: string -> string, ln: Line, i: nat): (ms: seq<Match>)
    requires Fits(ln)
    ensures |ms| == |ln.spans|
  {
    seq(|ln.spans|, j requires 0 <= j < |ln.spans| =>
      assert ln.spans[j] in ln.spans;
      Match(strip(ln.text[ln.spans[j].l..ln.spans[j].r]), i, ln.spans[j]))
  }

  /** The number of matches on the lines. */
  function Count(lines: seq<Line>): nat {
    if |lines| == 0 then 0 else Count(lines[..|lines| - 1]) + |lines[|lines| - 1].spans|
  }

  /** Every match of the input, line by line. */
  function Matches(strip: string -> string, lines: seq<Line>): (ms: seq<Match>)
    requires AllFit(lines)
    ensures |ms| == Count(lines)
  {
    if |lines| == 0 then []
    else
      var n := |lines| - 1;
      assert AllFit(lines[..n]) by {
        forall i | 0 <= i < n ensures Fits(lines[..n][i]) {
          assert lines[..n][i] == lines[i];
        }
      }
      Matches(strip, lines[..n]) + LineMatches(strip, lines[n], n)
  }

  /** The element passed to the callback: the path is left empty, the line
      and start column count from 1, and the end column is the exclusive
      0-based end, which is the inclusive 1-based one. */
  function ElementOf(m: Match): L.RawElement {
    L.RawElement(m.text, L.Loc("", m.line + 1, m.span.l + 1, m.span.r))
  }

  predicate IsPragma(text: string) {
    HasPrefix(text, "%")
  }

  /** ScanRawReader knows the hard stop `%stop!`; ScanReader does not. */
  datatype Dialect = Raw | Plain

  datatype ScanError =
    | AlreadyStopped
    | NotStopped
    | UnknownPragma(text: string)
    | CallbackFailed(line: int, column: int, cause: string)
    | ScanFailed(cause: string)
    | ReadFailed(cause: string)
    | OpenFailed(cause: string)

  /** The text of each error, as the scanners format it. */
  function Message(e: ScanError): string {
    match e
    case AlreadyStopped => "already stopped"
    case NotStopped => "not stopped"
    case UnknownPragma(t) => "unknown pragma: " + t
    case CallbackFailed(line, column, cause) => IntToString(line) + "." + IntToString(column) + ": " + cause
    case ScanFailed(cause) => "scan: " + cause
    case ReadFailed(cause) => "read: " + cause
    case OpenFailed(cause) => cause
  }

  /** Where the state machine is after some matches: still going (reporting
      off while `stopped`), ended by `%stop!`, or failed. */
  datatype Status = Running(stopped: bool) | Halted | Failed(err: ScanError)

  /** The elements the callback was called with, in order, and the status. */
  datatype Outcome = Outcome(calls: seq<L.RawElement>, status: Status)

  // ----------------------------------------------------------- the machine

  /** The pragma state machine over the matches, starting in state `stopped`.
      The callback's answer is None for nil or Some(message). */
  function Run(d: Dialect, ms: seq<Match>, stopped: bool, f: L.RawElement -> Option<string>): (o: Outcome)
    ensures |o.calls| <= |ms|
    ensures forall e :: e in o.calls ==> !IsPragma(e.text)
    ensures o.status.Halted? ==> d == Raw
    decreases |ms|
  {
    if |ms| == 0 then Outcome([], Running(stopped))
    else
      var m := ms[0];
      if IsPragma(m.text) then
        var p := m.text[1..];
        if d == Raw && p == "stop!" then Outcome([], Halted)
        else if p == "stop" then
          if stopped then Outcome([], Failed(AlreadyStopped)) else Run(d, ms[1..], true, f)
        else if p == "cont" then
          if !stopped then Outcome([], Failed(NotStopped)) else Run(d, ms[1..], false, f)
        else Outcome([], Failed(UnknownPragma(m.text)))
      else if stopped then Run(d, ms[1..], true, f)
      else
        var e := ElementOf(m);
        match f(e)
        case Some(cause) => Outcome([e], Failed(CallbackFailed(m.line + 1, m.span.l + 1, cause)))
        case None =>
          var rest := Run(d, ms[1..], false, f);
          Outcome([e] + rest.calls, rest.status)
  }

  /** Every call is the element of one of the matches. */
  lemma {:induction false} CallsComeFromMatches(d: Dialect, ms: seq<Match>, s: bool, f: L.RawElement -> Option<string>)
    ensures forall e :: e in Run(d, ms, s, f).calls ==> exists k :: 0 <= k < |ms| && e == ElementOf(ms[k])
    decreases |ms|
  {
    if |ms| > 0 {
      CallsComeFromMatches(d, ms[1..], true, f);
      CallsComeFromMatches(d, ms[1..], false, f);
      forall x | x in Run(d, ms, s, f).calls ensures exists k :: 0 <= k < |ms| && x == ElementOf(ms[k]) {
        if x != ElementOf(ms[0]) {
          var s' :| x in Run(d, ms[1..], s', f).calls;
          var k :| 0 <= k < |ms[1..]| && x == ElementOf(ms[1..][k]);
          assert x == ElementOf(ms[k + 1]);
        }
      }
    }
  }

  /** A scan that did not fail had every call answered with nil; a callback
      failure is the answer to the last call, reported at that element's
      line and start column. */
  lemma {:induction false} CallbackAnswers(d: Dialect, ms: seq<Match>, s: bool, f: L.RawElement -> Option<string>)
    ensures var o := Run(d, ms, s, f);
      && (!o.status.Failed? ==> forall e :: e in o.calls ==> f(e).None?)
      && (o.status.Failed? && o.status.err.CallbackFailed? ==>
            && |o.calls| > 0
            && var e := o.calls[|o.calls| - 1];
            && f(e) == Some(o.status.err.cause)
            && o.status.err.line == e.loc.line
            && o.status.err.column == e.loc.startColumn)
    decreases |ms|
  {
    if |ms| > 0 {
      CallbackAnswers(d, ms[1..], true, f);
      CallbackAnswers(d, ms[1..], false, f);
    }
  }

  // ------------------------------------------------------ scanning a reader

  /** What the line scanner reports once it stops: nothing, a token too
      long for its buffer, or a read error. */
  datatype Ending = Clean | TooLong | ReadError(cause: string)

  /** A scanner's result: the callback's calls and the returned error. */
  datatype Scan = Scan(calls: seq<L.RawElement>, err: Option<ScanError>)

  /** After the loop: a machine error is returned; otherwise an over-long
      token is only a warning and any other read error is wrapped under "scan". */
  function Finish(o: Outcome, end: Ending): (s: Scan)
    ensures s.calls == o.calls
    ensures o.status.Failed? ==> s.err == Some(o.status.err)
    ensures !o.status.Failed? ==> (s.err.None? <==> !end.ReadError?)
    ensures !o.status.Failed? && end.ReadError? ==> s.err == Some(ScanFailed(end.cause))
  {
    if o.status.Failed? then Scan(o.calls, Some(o.status.err))
    else if end.ReadError? then Scan(o.calls, Some(ScanFailed(end.cause)))
    else Scan(o.calls, None)
  }

  /** ScanRawReader, given the lines of the reader and the matches on them. */
  function ScanRawReader(b: Bracket, lines: seq<Line>, end: Ending, f: L.RawElement -> Option<string>): (s: Scan)
    requires AllFit(lines)
    ensures forall e :: e in s.calls ==> !IsPragma(e.text) && e.loc.path == ""
    ensures s.err.None? ==> forall e :: e in s.calls ==> f(e).None?
  {
    CallsComeFromMatches(Raw, Matches(Stripper(b), lines), false, f);
    CallbackAnswers(Raw, Matches(Stripper(b), lines), false, f);
    Finish(Run(Raw, Matches(Stripper(b), lines), false, f), end)
  }

  /** How the first read of ScanReader went: an error other than end of
      input, a head judged not to be text, or text. */
  datatype Head = HeadFailed(cause: string) | NotText | Text

  /** ScanReader: the head decides whether the input is scanned at all. */
  function ScanReader(b: Bracket, head: Head, lines: seq<Line>, end: Ending, f: L.RawElement -> Option<string>): (s: Scan)
    requires AllFit(lines)
    ensures head.NotText? ==> s == Scan([], None)
    ensures head.HeadFailed? ==> s == Scan([], Some(ReadFailed(head.cause)))
    ensures forall e :: e in s.calls ==> !IsPragma(e.text) && e.loc.path == ""
  {
    match head
    case HeadFailed(cause) => Scan([], Some(ReadFailed(cause)))
    case NotText => Scan([], None)
    case Text =>
      CallsComeFromMatches(Plain, Matches(Stripper(b), lines), false, f);
      Finish(Run(Plain, Matches(Stripper(b), lines), false, f), end)
  }

  /** The names that make ScanFile read standard input. */
  predicate IsStdin(path: string) {
    path == "" || path == "-" || path == "stdin"
  }

  function WithPath(e: L.RawElement, path: string): L.RawElement {
    e.(loc := e.loc.(path := path))
  }

  /** ScanFile: opening a named file may fail, and its error is returned as
      is; every element reaches the callback with its path set. */
  function ScanFile(b: Bracket, path: string, open: Option<string>, head: Head, lines: seq<Line>, end: Ending,
                    f: L.RawElement -> Option<string>): (s: Scan)
    requires AllFit(lines)
    ensures forall e :: e in s.calls ==> e.loc.path == path
    ensures !IsStdin(path) && open.Some? ==> s == Scan([], Some(OpenFailed(open.value)))
  {
    if !IsStdin(path) && open.Some? then Scan([], Some(OpenFailed(open.value)))
    else
      var r := ScanReader(b, head, lines, end, e => f(WithPath(e, path)));
      Scan(seq(|r.calls|, k requires 0 <= k < |r.calls| => WithPath(r.calls[k], path)), r.err)
  }

  // ------------------------------------------------------ the loop version

  /** The scanners' loop body for one match in state `stopped`. */
  method Step(d: Dialect, m: Match, stopped: bool, f: L.RawElement -> Option<string>) returns (step: Outcome)
    ensures step == Run(d, [m], stopped, f)
  {
    assert [m][1..] == [];
    if IsPragma(m.text) {
      var p := m.text[1..];
      if d == Raw && p == "stop!" {
        step := Outcome([], Halted);
      } else if p == "stop" {
        step := if stopped then Outcome([], Failed(AlreadyStopped)) else Outcome([], Running(true));
      } else if p == "cont" {
        step := if !stopped then Outcome([], Failed(NotStopped)) else Outcome([], Running(false));
      } else {
        step := Outcome([], Failed(UnknownPragma(m.text)));
      }
    } else if stopped {
      step := Outcome([], Running(true));
    } else {
      var e := ElementOf(m);
      var answer := f(e);
      step := if answer.Some? then Outcome([e], Failed(CallbackFailed(m.line + 1, m.span.l + 1, answer.value)))
              else Outcome([e], Running(false));
    }
  }

  /** The scanners' inner loop: the matches of line i, continuing from the
      calls and state the earlier lines left. A halt or failure decides the
      whole scan; otherwise the state moves on to the next line. */
  method RunLine(d: Dialect, strip: string -> string, lines: seq<Line>, i: nat,
                 calls0: seq<L.RawElement>, stopped0: bool, f: L.RawElement -> Option<string>) returns (o: Outcome)
    requires AllFit(lines) && i < |lines|
    requires AllFit(lines[..i]) && Run(d, Matches(strip, lines[..i]), false, f) == Outcome(calls0, Running(stopped0))
    ensures AllFit(lines[..i + 1])
    ensures o.status.Running? ==> o == Run(d, Matches(strip, lines[..i + 1]), false, f)
    ensures !o.status.Running? ==> o == Run(d, Matches(strip, lines), false, f)
  {
    AllFitPrefix(lines, i + 1);
    var calls := calls0;
    var stopped := stopped0;
    var ms := LineMatches(strip, lines[i], i);
    var done := Matches(strip, lines[..i]);
    assert Matches(strip, lines[..i + 1]) == done + ms by {
      assert lines[..i + 1][..i] == lines[..i];
    }
    var j := 0;
    assert done + ms[..0] == done;
    while j < |ms|
      invariant 0 <= j <= |ms|
      invariant Run(d, done + ms[..j], false, f) == Outcome(calls, Running(stopped))
    {
      var m := ms[j];
      var step := Step(d, m, stopped, f);
      assert Run(d, done + ms[..j + 1], false, f) == Outcome(calls + step.calls, step.status) by {
        assert done + ms[..j + 1] == (done + ms[..j]) + [m] by {
          assert ms[..j + 1] == ms[..j] + [m];
        }
        RunSnoc(d, done + ms[..j], m, f);
      }
      if !step.status.Running? {
        o := Outcome(calls + step.calls, step.status);
        LinePrefix(strip, lines, i, j + 1);
        RunPrefixDecides(d, done + ms[..j + 1], Matches(strip, lines), f);
        return;
      }
      calls := calls + step.calls;
      stopped := step.status.stopped;
      j := j + 1;
    }
    assert ms[..j] == ms;
    o := Outcome(calls, Running(stopped));
  }

  /** The scanners' nested loop over lines and their matches. */
  method RunLines(d: Dialect, b: Bracket, lines: seq<Line>, f: L.RawElement -> Option<string>) returns (o: Outcome)
    requires AllFit(lines)
    ensures o == Run(d, Matches(Stripper(b), lines), false, f)
  {
    var strip := Stripper(b);
    var calls: seq<L.RawElement> := [];
    var stopped := false;
    var i := 0;
    AllFitPrefix(lines, 0);
    while i < |lines|
      invariant 0 <= i <= |lines|
      invariant AllFit(lines[..i])
      invariant Run(d, Matches(strip, lines[..i]), false, f) == Outcome(calls, Running(stopped))
    {
      o := RunLine(d, strip, lines, i, calls, stopped, f);
      if !o.status.Running? {
        return;
      }
      calls := o.calls;
      stopped := o.status.stopped;
      i := i + 1;
    }
    assert lines[..i] == lines;
    o := Outcome(calls, Running(stopped));
  }

  // ---------------------------------------------------------------- lemmas

  lemma AllFitPrefix(lines: seq<Line>, n: nat)
    requires AllFit(lines) && n <= |lines|
    ensures AllFit(lines[..n])
  {
    forall k | 0 <= k < n ensures Fits(lines[..n][k]) {
      assert lines[..n][k] == lines[k];
    }
  }

  /** Matches of the first lines come first. */
  lemma {:induction false} MatchesPrefix(strip: string -> string, lines: seq<Line>, i: nat)
    requires AllFit(lines) && i <= |lines|
    ensures AllFit(lines[..i])
    ensures Matches(strip, lines[..i]) <= Matches(strip, lines)
  {
    assert AllFit(lines[..i]) by {
      forall k | 0 <= k < i ensures Fits(lines[..i][k]) {
        assert lines[..i][k] == lines[k];
      }
    }
    if i == |lines| {
      assert lines[..i] == lines;
    } else {
      var n := |lines| - 1;
      assert lines[..n][..i] == lines[..i];
      MatchesPrefix(strip, lines[..n], i);
    }
  }

  /** The matches up to match j of line i come first. */
  lemma LinePrefix(strip: string -> string, lines: seq<Line>, i: nat, j: nat)
    requires AllFit(lines) && i < |lines| && j <= |lines[i].spans|
    ensures AllFit(lines[..i])
    ensures Matches(strip, lines[..i]) + LineMatches(strip, lines[i], i)[..j] <= Matches(strip, lines)
  {
    AllFitPrefix(lines, i);
    AllFitPrefix(lines, i + 1);
    var mi := Matches(strip, lines[..i]);
    var lm := LineMatches(strip, lines[i], i);
    var all := Matches(strip, lines);
    assert Matches(strip, lines[..i + 1]) == mi + lm by {
      assert lines[..i + 1][..i] == lines[..i];
    }
    assert mi + lm <= all by {
      MatchesPrefix(strip, lines, i + 1);
    }
    assert mi + lm[..j] == (mi + lm)[..|mi| + j];
  }

  /** Running two stretches of matches is running the first and, if it is
      still going, the second from where the first left off. */
  lemma {:induction false} RunAppend(d: Dialect, a: seq<Match>, c: seq<Match>, s: bool, f: L.RawElement -> Option<string>)
    ensures Run(d, a + c, s, f) ==
      var oa := Run(d, a, s, f);
      if oa.status.Running? then
        var oc := Run(d, c, oa.status.stopped, f);
        Outcome(oa.calls + oc.calls, oc.status)
      else oa
    decreases |a|
  {
    if |a| == 0 {
      assert a + c == c;
    } else {
      var m := a[0];
      assert (a + c)[0] == m;
      assert (a + c)[1..] == a[1..] + c;
      if IsPragma(m.text) {
        var p := m.text[1..];
        if d == Raw && p == "stop!" {
        } else if p == "stop" {
          if !s {
            RunAppend(d, a[1..], c, true, f);
          }
        } else if p == "cont" {
          if s {
            RunAppend(d, a[1..], c, false, f);
          }
        }
      } else if s {
        RunAppend(d, a[1..], c, true, f);
      } else if f(ElementOf(m)).None? {
        RunAppend(d, a[1..], c, false, f);
        var r := Run(d, a[1..], false, f);
        if r.status.Running? {
          var oc := Run(d, c, r.status.stopped, f);
          assert [ElementOf(m)] + r.calls + oc.calls == [ElementOf(m)] + (r.calls + oc.calls);
        }
      }
    }
  }

  lemma RunSnoc(d: Dialect, a: seq<Match>, m: Match, f: L.RawElement -> Option<string>)
    requires Run(d, a, false, f).status.Running?
    ensures var oa := Run(d, a, false, f);
      var om := Run(d, [m], oa.status.stopped, f);
      Run(d, a + [m], false, f) == Outcome(oa.calls + om.calls, om.status)
  {
    RunAppend(d, a, [m], false, f);
  }

  /** Once the machine halts or fails, later matches change nothing. */
  lemma RunPrefixDecides(d: Dialect, a: seq<Match>, c: seq<Match>, f: L.RawElement -> Option<string>)
    requires a <= c
    requires !Run(d, a, false, f).status.Running?
    ensures Run(d, c, false, f) == Run(d, a, false, f)
  {
    assert c == a + c[|a|..];
    RunAppend(d, a, c[|a|..], false, f);
  }

  /** The state after a stretch of matches, stated without the machine: the
      last `%stop` is not followed by a `%cont`. */
  predicate StoppedAfter(ms: seq<Match>) {
    exists j :: 0 <= j < |ms| && ms[j].text == "%stop" && forall i :: j < i < |ms| ==> ms[i].text != "%cont"
  }

  /** The elements a scan reports, stated without the machine: every
      non-pragma match that no earlier `%stop` silences. */
  function Visible(ms: seq<Match>): seq<L.RawElement> {
    if |ms| == 0 then []
    else
      var init := ms[..|ms| - 1];
      var m := ms[|ms| - 1];
      Visible(init) + (if !IsPragma(m.text) && !StoppedAfter(init) then [ElementOf(m)] else [])
  }

  lemma StoppedAfterSnoc(init: seq<Match>, m: Match)
    ensures StoppedAfter(init + [m]) ==
      if m.text == "%stop" then true
      else if m.text == "%cont" then false
      else StoppedAfter(init)
  {
    var ms := init + [m];
    if m.text == "%stop" {
      assert ms[|init|] == m;
    } else if m.text == "%cont" {
      assert ms[|init|] == m;
    } else {
      if StoppedAfter(init) {
        var j :| 0 <= j < |init| && init[j].text == "%stop" && forall i :: j < i < |init| ==> init[i].text != "%cont";
        assert ms[j] == init[j];
        assert forall i :: j < i < |ms| ==> ms[i].text != "%cont" by {
          forall i | j < i < |ms| ensures ms[i].text != "%cont" {
            if i < |init| {
              assert ms[i] == init[i];
            }
          }
        }
      }
      if StoppedAfter(ms) {
        var j :| 0 <= j < |ms| && ms[j].text == "%stop" && forall i :: j < i < |ms| ==> ms[i].text != "%cont";
        assert j != |init|;
        assert init[j] == ms[j];
        assert forall i :: j < i < |init| ==> init[i].text != "%cont" by {
          forall i | j < i < |init| ensures init[i].text != "%cont" {
            assert init[i] == ms[i];
          }
        }
      }
    }
  }

  /** The pragma names are the texts "%stop" and "%cont". */
  lemma PragmaNames(t: string)
    ensures (IsPragma(t) && t[1..] == "stop") <==> t == "%stop"
    ensures (IsPragma(t) && t[1..] == "cont") <==> t == "%cont"
  {
    if IsPragma(t) {
      assert t == t[..1] + t[1..];
    }
  }

  /** A scan that ends without error or hard stop reports exactly the visible
      elements, and its final state is the one the pragmas leave. */
  lemma {:induction false} RunShowsVisible(d: Dialect, ms: seq<Match>, f: L.RawElement -> Option<string>)
    ensures var o := Run(d, ms, false, f);
      o.status.Running? ==> o.calls == Visible(ms) && o.status.stopped == StoppedAfter(ms)
  {
    if |ms| > 0 {
      var init := ms[..|ms| - 1];
      var m := ms[|ms| - 1];
      assert ms == init + [m];
      RunAppend(d, init, [m], false, f);
      var oi := Run(d, init, false, f);
      if oi.status.Running? {
        RunShowsVisible(d, init, f);
        StoppedAfterSnoc(init, m);
        PragmaNames(m.text);
        assert [m][1..] == [];
        var s := oi.status.stopped;
        var om := Run(d, [m], s, f);
        if om.status.Running? {
          if IsPragma(m.text) {
            assert om.calls == [];
          } else {
            assert m.text != "%stop" && m.text != "%cont";
          }
        }
      }
    }
  }

  /** Matches between a `%stop` and a `%cont` are never reported: a silenced
      stretch without pragmas leaves no trace. */
  lemma {:induction false} QuietWhileStopped(d: Dialect, ms: seq<Match>, f: L.RawElement -> Option<string>)
    requires forall k :: 0 <= k < |ms| ==> !IsPragma(ms[k].text)
    ensures Run(d, ms, true, f) == Outcome([], Running(true))
  {
    if |ms| > 0 {
      QuietWhileStopped(d, ms[1..], f);
    }
  }

  lemma StopContSilences(d: Dialect, stop: Match, mid: seq<Match>, cont: Match, rest: seq<Match>,
                         f: L.RawElement -> Option<string>)
    requires stop.text == "%stop" && cont.text == "%cont"
    requires forall k :: 0 <= k < |mid| ==> !IsPragma(mid[k].text)
    ensures Run(d, [stop] + mid + [cont] + rest, false, f) == Run(d, rest, false, f)
  {
    PragmaNames(stop.text);
    PragmaNames(cont.text);
    var tail := [cont] + rest;
    assert [stop] + mid + [cont] + rest == [stop] + (mid + tail);
    assert ([stop] + (mid + tail))[1..] == mid + tail;
    RunAppend(d, mid, tail, true, f);
    QuietWhileStopped(d, mid, f);
    assert tail[1..] == rest;
  }

  /** `%stop!` ends the raw scan there: the calls are those before it, and
      unless the earlier matches already failed, the machine halts. */
  lemma HardStopEndsRun(ms: seq<Match>, k: nat, s: bool, f: L.RawElement -> Option<string>)
    requires k < |ms| && ms[k].text == "%stop!"
    ensures var pre := Run(Raw, ms[..k], s, f);
      Run(Raw, ms, s, f) == if pre.status.Running? then Outcome(pre.calls, Halted) else pre
  {
    assert ms == ms[..k] + ms[k..];
    RunAppend(Raw, ms[..k], ms[k..], s, f);
    assert ms[k..][0] == ms[k];
    var t := ms[k].text;
    assert IsPragma(t) && t[1..] == "stop!";
    var pre := Run(Raw, ms[..k], s, f);
    assert pre.calls + [] == pre.calls;
  }

  /** So the input after `%stop!` is never looked at. */
  lemma HardStopIgnoresRest(pre: seq<Match>, stop: Match, rest1: seq<Match>, rest2: seq<Match>, f: L.RawElement -> Option<string>)
    requires stop.text == "%stop!"
    ensures Run(Raw, pre + [stop] + rest1, false, f) == Run(Raw, pre + [stop] + rest2, false, f)
  {
    var k := |pre|;
    assert (pre + [stop] + rest1)[..k] == pre && (pre + [stop] + rest1)[k] == stop;
    assert (pre + [stop] + rest2)[..k] == pre && (pre + [stop] + rest2)[k] == stop;
    HardStopEndsRun(pre + [stop] + rest1, k, false, f);
    HardStopEndsRun(pre + [stop] + rest2, k, false, f);
  }

  /** A raw scan that reaches `%stop!` succeeds with the calls before it,
      unless the reader failed. */
  lemma RawHardStopSucceeds(b: Bracket, lines: seq<Line>, k: nat, end: Ending, f: L.RawElement -> Option<string>)
    requires AllFit(lines)
    requires k < |Matches(Stripper(b), lines)| && Matches(Stripper(b), lines)[k].text == "%stop!"
    requires !Run(Raw, Matches(Stripper(b), lines)[..k], false, f).status.Failed?
    requires !end.ReadError?
    ensures ScanRawReader(b, lines, end, f) == Scan(Run(Raw, Matches(Stripper(b), lines)[..k], false, f).calls, None)
  {
    HardStopEndsRun(Matches(Stripper(b), lines), k, false, f);
  }

  /** ScanReader does not know `%stop!`: it is an unknown pragma there. */
  lemma PlainRejectsHardStop(ms: seq<Match>, k: nat, s: bool, f: L.RawElement -> Option<string>)
    requires k < |ms| && ms[k].text == "%stop!"
    ensures var pre := Run(Plain, ms[..k], s, f);
      Run(Plain, ms, s, f) == if pre.status.Running? then Outcome(pre.calls, Failed(UnknownPragma("%stop!"))) else pre
  {
    assert ms == ms[..k] + ms[k..];
    RunAppend(Plain, ms[..k], ms[k..], s, f);
    assert ms[k..][0] == ms[k];
    var t := ms[k].text;
    assert IsPragma(t) && t[1..] == "stop!";
    var pre := Run(Plain, ms[..k], s, f);
    assert pre.calls + [] == pre.calls;
  }

  /** The pragma errors: `%stop` while stopped, `%cont` while reporting, and
      any other pragma the dialect does not know. */
  lemma PragmaErrors(d: Dialect, ms: seq<Match>, k: nat, f: L.RawElement -> Option<string>)
    requires k < |ms| && IsPragma(ms[k].text)
    requires Run(d, ms[..k], false, f).status.Running?
    ensures var pre := Run(d, ms[..k], false, f);
      var t := ms[k].text;
      && (t == "%stop" && pre.status.stopped ==> Run(d, ms, false, f) == Outcome(pre.calls, Failed(AlreadyStopped)))
      && (t == "%cont" && !pre.status.stopped ==> Run(d, ms, false, f) == Outcome(pre.calls, Failed(NotStopped)))
      && (t != "%stop" && t != "%cont" && (d == Plain || t != "%stop!") ==>
            Run(d, ms, false, f) == Outcome(pre.calls, Failed(UnknownPragma(t))))
  {
    assert ms == ms[..k] + ms[k..];
    RunAppend(d, ms[..k], ms[k..], false, f);
    assert ms[k..][0] == ms[k];
    var t := ms[k].text;
    PragmaNames(t);
    assert t == "%stop!" <==> t[1..] == "stop!" by {
      assert t == t[..1] + t[1..];
    }
    var pre := Run(d, ms[..k], false, f);
    assert pre.calls + [] == pre.calls;
  }

  /** A callback error aborts the scan at that element, and the error
      carries the element's line and start column. */
  lemma CallbackAborts(d: Dialect, ms: seq<Match>, k: nat, cause: string, f: L.RawElement -> Option<string>)
    requires k < |ms| && !IsPragma(ms[k].text)
    requires Run(d, ms[..k], false, f).status == Running(false)
    requires f(ElementOf(ms[k])) == Some(cause)
    ensures var e := ElementOf(ms[k]);
      Run(d, ms, false, f) ==
        Outcome(Run(d, ms[..k], false, f).calls + [e], Failed(CallbackFailed(e.loc.line, e.loc.startColumn, cause)))
  {
    assert ms == ms[..k] + ms[k..];
    RunAppend(d, ms[..k], ms[k..], false, f);
    assert ms[k..][0] == ms[k];
  }

  lemma MatchIndex(strip: string -> string, lines: seq<Line>, i: nat, j: nat)
    requires AllFit(lines)
    requires i < |lines| && j < |lines[i].spans|
    ensures Count(lines[..i]) + j < Count(lines)
    ensures Matches(strip, lines)[Count(lines[..i]) + j] == LineMatches(strip, lines[i], i)[j]
  {
    AllFitPrefix(lines, i);
    AllFitPrefix(lines, i + 1);
    var upto := lines[..i + 1];
    var mi := Matches(strip, lines[..i]);
    var lm := LineMatches(strip, lines[i], i);
    assert Matches(strip, upto) <= Matches(strip, lines) by {
      MatchesPrefix(strip, lines, i + 1);
    }
    assert Matches(strip, upto) == mi + lm by {
      assert upto[..i] == lines[..i] && upto[i] == lines[i];
    }
    assert (mi + lm)[|mi| + j] == lm[j];
  }

  /** Match number j of line i sits after the matches of the earlier lines,
      and its element is at line i + 1, from column l + 1 to column r. */
  lemma MatchAt(b: Bracket, lines: seq<Line>, i: nat, j: nat)
    requires AllFit(lines)
    requires i < |lines| && j < |lines[i].spans|
    ensures Count(lines[..i]) + j < |Matches(Stripper(b), lines)|
    ensures var sp := lines[i].spans[j];
      && sp.l <= sp.r <= |lines[i].text|
      && ElementOf(Matches(Stripper(b), lines)[Count(lines[..i]) + j]) ==
           L.RawElement(Strip(b, lines[i].text[sp.l..sp.r]), L.Loc("", i + 1, sp.l + 1, sp.r))
  {
    MatchIndex(Stripper(b), lines, i, j);
    assert Fits(lines[i]) && lines[i].spans[j] in lines[i].spans;
  }

  /** Element text of a bracketed match is the trimmed content between the delimiters. */
  lemma StripOfBracketed(b: Bracket, content: string)
    ensures Strip(b, b.left + content + b.right) == TrimSpace(content)
  {
    var s := b.left + content + b.right;
    assert s[..|b.left|] == b.left;
    assert s[|b.left|..] == content + b.right;
    var t := content + b.right;
    assert t[|t| - |b.right|..] == b.right;
    assert t[..|t| - |b.right|] == content;
  }

  /** ScanFile reports exactly what ScanReader reports with the path filled in. */
  lemma ScanFileFillsPath(b: Bracket, path: string, open: Option<string>, head: Head, lines: seq<Line>, end: Ending,
                          f: L.RawElement -> Option<string>)
    requires AllFit(lines)
    requires IsStdin(path) || open.None?
    ensures var g := (e: L.RawElement) => f(WithPath(e, path));
      var r := ScanReader(b, head, lines, end, g);
      var s := ScanFile(b, path, open, head, lines, end, f);
      && s.err == r.err
      && |s.calls| == |r.calls|
      && forall k :: 0 <= k < |s.calls| ==> s.calls[k] == WithPath(r.calls[k], path) && s.calls[k].text == r.calls[k].text
  {
  }

  /** A successful ScanReader reports exactly the visible elements: the
      non-pragma matches outside every `%stop` ... `%cont` stretch. */
  lemma ScanReaderReportsVisible(b: Bracket, lines: seq<Line>, end: Ending, f: L.RawElement -> Option<string>)
    requires AllFit(lines)
    requires ScanReader(b, Text, lines, end, f).err.None?
    ensures ScanReader(b, Text, lines, end, f).calls == Visible(Matches(Stripper(b), lines))
  {
    RunShowsVisible(Plain, Matches(Stripper(b), lines), f);
  }

  /** Over-long tokens only warn: a scan that the machine lets through succeeds. */
  lemma TooLongSucceeds(b: Bracket, lines: seq<Line>, f: L.RawElement -> Option<string>)
    requires AllFit(lines)
    requires !Run(Raw, Matches(Stripper(b), lines), false, f).status.Failed?
    ensures ScanRawReader(b, lines, TooLong, f).err == None
    ensures ScanRawReader(b, lines, TooLong, f) == ScanRawReader(b, lines, Clean, f)
  {
  }
}
