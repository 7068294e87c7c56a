/** Source locations of tags (internal/pkg/scanner, files loc.go and
    element.go, which carry the same definitions): ordering, containment,
    the `path:line.start-end` text form and its parser. */
module Locations {
  import opened Wrappers
  import opened Strs

  /** Go's Loc; the numbers are Go `int`s (64 bits). */
  datatype Loc = Loc(path: string, line: int, startColumn: int, endColumn: int)

  /** A tag's text as found by a scanner, before parsing. */
  datatype RawElement = RawElement(text: string, loc: Loc)

  /** Loc.Less: by path, then line, then start column; the end column is ignored. */
  predicate Less(a: Loc, b: Loc) {
    if a.path != b.path then Strs.Less(a.path, b.path)
    else if a.line != b.line then a.line < b.line
    else a.startColumn < b.startColumn
  }

  /** Loc.Contains: same path and line, and `other`'s columns nested in this one's. */
  predicate Contains(l: Loc, other: Loc) {
    && l.path == other.path
    && l.line == other.line
    && other.startColumn >= l.startColumn
    && other.endColumn <= l.endColumn
  }

  /** Loc.String: `path:line.start-end` with decimal numbers. */
  function String(l: Loc): string {
    l.path + ":" + IntToString(l.line) + "." + IntToString(l.startColumn) + "-" + IntToString(l.endColumn)
  }

  // ------------------------------------------------------------------ order

  /** The part of a Loc that `Less` looks at. */
  predicate SamePosition(a: Loc, b: Loc) {
    a.path == b.path && a.line == b.line && a.startColumn == b.startColumn
  }

  lemma LessIgnoresEndColumn(a: Loc, b: Loc, endA: int, endB: int)
    ensures Less(a, b) == Less(a.(endColumn := endA), b.(endColumn := endB))
    ensures !Less(a, a)
  {
    LessIrreflexive(a.path);
  }

  /** Less is a strict weak order whose ties are exactly the equal positions. */
  lemma LessIsStrictWeakOrder(a: Loc, b: Loc, c: Loc)
    ensures !Less(a, a)
    ensures Less(a, b) && Less(b, c) ==> Less(a, c)
    ensures Less(a, b) ==> !Less(b, a)
    ensures !Less(a, b) && !Less(b, a) <==> SamePosition(a, b)
  {
    LessIrreflexive(a.path);
    LessAsymmetric(a.path, b.path);
    LessTotal(a.path, b.path);
    if Less(a, b) && Less(b, c) && a.path != b.path && b.path != c.path {
      LessTransitive(a.path, b.path, c.path);
      LessAsymmetric(a.path, c.path);
    }
    if Less(a, b) && Less(b, c) && a.path != b.path && b.path == c.path {
      assert Less(a, c);
    }
  }

  /** Containment is reflexive and transitive. */
  lemma ContainsIsPreorder(a: Loc, b: Loc, c: Loc)
    ensures Contains(a, a)
    ensures Contains(a, b) && Contains(b, c) ==> Contains(a, c)
  {
  }

  // ---------------------------------------------------------------- parsing

  /** The submatches of `^(.+):([0-9]+)\.([0-9]+)(-[0-9]+)?$`: path, line,
      start, and the optional `-end` group ("" when absent). */
  datatype LocMatch = LocMatch(path: string, line: string, start: string, end: string)

  predicate WellFormedEnd(e: string) {
    e == "" || (e[0] == '-' && IsDigits(e[1..]))
  }

  /** The text a match's parts were taken from. */
  function Joined(m: LocMatch): string {
    m.path + ":" + Tail(m.line, m.start, m.end)
  }

  function Tail(line: string, start: string, end: string): string {
    line + "." + start + end
  }

  /** Splits `start` from the optional `-end` group at the first '-'. */
  function SplitEnd(after: string): (r: (string, string))
    ensures r.0 + r.1 == after
  {
    match IndexOf(after, '-')
    case None => (after, "")
    case Some(h) =>
      assert after == after[..h] + after[h..];
      (after[..h], after[h..])
  }

  /** Matches `([0-9]+)\.([0-9]+)(-[0-9]+)?` against the whole tail. */
  function MatchTail(rest: string): (r: Option<(string, string, string)>)
    ensures r.Some? ==> Tail(r.value.0, r.value.1, r.value.2) == rest
    ensures r.Some? ==> IsDigits(r.value.0) && IsDigits(r.value.1) && WellFormedEnd(r.value.2)
  {
    match IndexOf(rest, '.')
    case None => None
    case Some(d) =>
      Recompose(rest, d);
      var line := rest[..d];
      var (start, end) := SplitEnd(rest[d + 1..]);
      if !IsDigits(line) || !IsDigits(start) || !WellFormedEnd(end) then None
      else Some((line, start, end))
  }

  /** The regular expression as a function. `.` does not match a newline, and
      the tail after the path holds no ':', so the path runs to the last ':'. */
  function MatchLoc(text: string): (r: Option<LocMatch>)
    ensures r.Some? ==> Joined(r.value) == text
    ensures r.Some? ==> r.value.path != "" && '\n' !in r.value.path
    ensures r.Some? ==> IsDigits(r.value.line) && IsDigits(r.value.start) && WellFormedEnd(r.value.end)
  {
    if '\n' in text then None
    else
      match LastIndexOf(text, ':')
      case None => None
      case Some(c) =>
        Recompose(text, c);
        var path := text[..c];
        if path == "" then None
        else
          match MatchTail(text[c + 1..])
          case None => None
          case Some((line, start, end)) =>
            assert '\n' !in path by {
              assert forall i :: 0 <= i < |path| ==> path[i] == text[i];
            }
            Some(LocMatch(path, line, start, end))
  }

  lemma DigitsHaveNo(s: string, c: char)
    requires IsDigits(s) && !IsDigit(c)
    ensures c !in s
  {
  }

  lemma EndHasNo(e: string, c: char)
    requires WellFormedEnd(e) && !IsDigit(c) && c != '-'
    ensures c !in e
  {
    if e != "" {
      assert e == [e[0]] + e[1..];
    }
  }

  lemma SplitEndComplete(start: string, end: string)
    requires IsDigits(start) && WellFormedEnd(end)
    ensures SplitEnd(start + end) == (start, end)
  {
    DigitsHaveNo(start, '-');
    if end == "" {
      assert start + end == start;
    } else {
      assert start + end == start + ['-'] + end[1..];
      IndexOfAppend(start, '-', end[1..]);
      assert (start + end)[..|start|] == start;
      assert (start + end)[|start|..] == end;
    }
  }

  lemma MatchTailComplete(line: string, start: string, end: string)
    requires IsDigits(line) && IsDigits(start) && WellFormedEnd(end)
    ensures MatchTail(Tail(line, start, end)) == Some((line, start, end))
  {
    var rest := line + "." + start + end;
    DigitsHaveNo(line, '.');
    assert rest == line + ['.'] + (start + end);
    IndexOfAppend(line, '.', start + end);
    assert rest[..|line|] == line;
    assert rest[|line| + 1..] == start + end;
    SplitEndComplete(start, end);
  }

  /** Every text of the matched shape is matched, with exactly those parts. */
  lemma MatchLocComplete(m: LocMatch)
    requires m.path != "" && '\n' !in m.path
    requires IsDigits(m.line) && IsDigits(m.start) && WellFormedEnd(m.end)
    ensures MatchLoc(Joined(m)) == Some(m)
  {
    var tail := Tail(m.line, m.start, m.end);
    DigitsHaveNo(m.line, ':');
    DigitsHaveNo(m.start, ':');
    EndHasNo(m.end, ':');
    DigitsHaveNo(m.line, '\n');
    DigitsHaveNo(m.start, '\n');
    EndHasNo(m.end, '\n');
    assert ':' !in tail && '\n' !in tail;
    var text := Joined(m);
    assert text == m.path + [':'] + tail;
    assert '\n' !in text;
    LastIndexOfAppend(m.path, ':', tail);
    assert text[..|m.path|] == m.path;
    assert text[|m.path| + 1..] == tail;
    MatchTailComplete(m.line, m.start, m.end);
  }

  datatype LocError = Invalid | InvalidLineNumber | InvalidStartColumn | InvalidEndColumn

  /** Go's `start + 1` on a 64-bit int, which wraps at the top of the range. */
  function AddOne64(x: int): (r: int)
    requires MinInt64 <= x <= MaxInt64
    ensures MinInt64 <= r <= MaxInt64
    ensures x < MaxInt64 ==> r == x + 1
  {
    if x == MaxInt64 then MinInt64 else x + 1
  }

  /** The numbers of a matched location text; a missing end column means
      one column, and an explicit end must lie after the start. */
  function ParseMatch(m: LocMatch): (r: Result<Loc, LocError>)
    requires IsDigits(m.line) && IsDigits(m.start) && WellFormedEnd(m.end)
    ensures r.Ok? ==> r.value.path == m.path
    ensures r.Ok? ==> 0 <= r.value.line <= MaxInt64 && 0 <= r.value.startColumn <= MaxInt64
    ensures r.Ok? ==>
      || r.value.startColumn < r.value.endColumn
      || (r.value.startColumn == MaxInt64 && r.value.endColumn == MinInt64)
  {
    match Atoi(m.line)
    case None => Err(InvalidLineNumber)
    case Some(line) =>
      match Atoi(m.start)
      case None => Err(InvalidStartColumn)
      case Some(start) =>
        if m.end != "" then
          match Atoi(m.end[1..])
          case None => Err(InvalidEndColumn)
          case Some(end) =>
            if end <= start then Err(InvalidEndColumn)
            else Ok(Loc(m.path, line, start, end))
        else
          Ok(Loc(m.path, line, start, AddOne64(start)))
  }

  /** ParseLocString: the anchored pattern, then the numbers. */
  function ParseLocString(text: string): (r: Result<Loc, LocError>)
    ensures r.Ok? ==> r.value.path != "" && '\n' !in r.value.path
    ensures r.Ok? ==> 0 <= r.value.line <= MaxInt64 && 0 <= r.value.startColumn <= MaxInt64
    ensures r.Ok? ==>
      || r.value.startColumn < r.value.endColumn
      || (r.value.startColumn == MaxInt64 && r.value.endColumn == MinInt64)
    ensures MatchLoc(text).None? ==> r == Err(Invalid)
  {
    match MatchLoc(text)
    case None => Err(Invalid)
    case Some(m) => ParseMatch(m)
  }

  /** The locations `String` and `ParseLocString` agree on. */
  predicate Printable(l: Loc) {
    && l.path != "" && '\n' !in l.path
    && 0 <= l.line <= MaxInt64
    && 0 <= l.startColumn < l.endColumn <= MaxInt64
  }

  lemma AtoiOfNat(n: nat)
    requires n <= MaxInt64
    ensures Atoi(NatToString(n)) == Some(n)
  {
    DigitsValueOfNatToString(n);
  }

  /** The match that the printed form of a location produces. */
  function PrintedMatch(l: Loc): LocMatch
    requires l.line >= 0 && l.startColumn >= 0 && l.endColumn >= 0
  {
    LocMatch(l.path, NatToString(l.line), NatToString(l.startColumn), "-" + NatToString(l.endColumn))
  }

  lemma StringIsJoined(l: Loc)
    requires l.line >= 0 && l.startColumn >= 0 && l.endColumn >= 0
    ensures String(l) == Joined(PrintedMatch(l))
  {
    var a, b, c := NatToString(l.line), NatToString(l.startColumn), NatToString(l.endColumn);
    calc {
      String(l);
      l.path + ":" + a + "." + b + "-" + c;
      l.path + ":" + (a + "." + b + ("-" + c));
      Joined(PrintedMatch(l));
    }
  }

  /** Printing then parsing gives back the location. */
  lemma RoundTrip(l: Loc)
    requires Printable(l)
    ensures ParseLocString(String(l)) == Ok(l)
  {
    var m := PrintedMatch(l);
    assert m.end[1..] == NatToString(l.endColumn);
    MatchLocComplete(m);
    StringIsJoined(l);
    AtoiOfNat(l.line);
    AtoiOfNat(l.startColumn);
    AtoiOfNat(l.endColumn);
  }

  /** A match in printed form (explicit end column, no leading zeros) whose
      numbers are accepted prints back as the text it was matched from. */
  lemma MatchPrintsBack(m: LocMatch)
    requires IsDigits(m.line) && IsDigits(m.start) && WellFormedEnd(m.end) && m.end != ""
    requires ParseMatch(m).Ok?
    requires m.line == NatToString(DigitsValue(m.line))
    requires m.start == NatToString(DigitsValue(m.start))
    requires m.end[1..] == NatToString(DigitsValue(m.end[1..]))
    ensures String(ParseMatch(m).value) == Joined(m)
  {
    var l := ParseMatch(m).value;
    assert l.line == DigitsValue(m.line);
    assert l.startColumn == DigitsValue(m.start);
    assert l.endColumn == DigitsValue(m.end[1..]);
    assert m.end == "-" + m.end[1..];
    StringIsJoined(l);
    assert PrintedMatch(l) == m;
  }

  /** A text in printed form that parses is exactly the printed form of
      the parsed location. */
  lemma ParsePrintsBack(text: string)
    requires MatchLoc(text).Some? && MatchLoc(text).value.end != ""
    requires ParseLocString(text).Ok?
    requires var m := MatchLoc(text).value;
      && m.line == NatToString(DigitsValue(m.line))
      && m.start == NatToString(DigitsValue(m.start))
      && m.end[1..] == NatToString(DigitsValue(m.end[1..]))
    ensures String(ParseLocString(text).value) == text
  {
    MatchPrintsBack(MatchLoc(text).value);
  }

  /** The single-column form `path:line.col` stands for the span [col, col+1). */
  lemma ShortForm(path: string, line: nat, col: nat)
    requires path != "" && '\n' !in path
    requires line <= MaxInt64 && col < MaxInt64
    ensures ParseLocString(Joined(LocMatch(path, NatToString(line), NatToString(col), "")))
         == Ok(Loc(path, line, col, col + 1))
  {
    var m := LocMatch(path, NatToString(line), NatToString(col), "");
    assert ParseLocString(Joined(m)) == ParseMatch(m) by {
      MatchLocComplete(m);
    }
    assert Atoi(m.line) == Some(line) && Atoi(m.start) == Some(col) by {
      AtoiOfNat(line);
      AtoiOfNat(col);
    }
  }

  /** An explicit end column that does not lie after the start is refused. */
  lemma RejectsEndNotAfterStart(l: Loc)
    requires l.path != "" && '\n' !in l.path
    requires 0 <= l.line <= MaxInt64 && 0 <= l.endColumn <= l.startColumn <= MaxInt64
    ensures ParseLocString(String(l)) == Err(InvalidEndColumn)
  {
    var m := PrintedMatch(l);
    assert m.end[1..] == NatToString(l.endColumn);
    MatchLocComplete(m);
    StringIsJoined(l);
    AtoiOfNat(l.line);
    AtoiOfNat(l.startColumn);
    AtoiOfNat(l.endColumn);
  }

  /** Text without a ':' (or with a newline) is not a location. */
  lemma RejectsUnanchored(text: string)
    requires ':' !in text || '\n' in text
    ensures ParseLocString(text) == Err(Invalid)
  {
  }
}
