/** The logging helpers of pkg/zlog: log levels with their names, parsing and
    reportability (level.go), and the key/value pairs a log call carries
    (pairs.go). */
module ZLog {
  import opened Wrappers
  import opened Strs

  // ------------------------------------------------------------------ levels

  /** Level is a Go int; the named levels are 0 to 6 and 7 marks the end. */
  type Level = int

  const Debug: Level := 0
  const Info: Level := 1
  const Warn: Level := 2
  const Error: Level := 3
  const Fatal: Level := 4
  const Panic: Level := 5
  const DebugPanic: Level := 6
  const Unknown: Level := 7

  /** IsUnknown: outside the named range. */
  predicate IsUnknown(l: Level) {
    l >= Unknown || l < Debug
  }

  /** The names of the named levels, in level order (levelToString). */
  const Names: seq<string> := ["debug", "info", "warn", "error", "fatal", "panic", "dpanic"]

  /** Level.String: the name, or the decimal number of an unknown level. */
  function String(l: Level): (s: string)
    ensures IsUnknown(l) ==> s == IntToString(l)
    ensures !IsUnknown(l) ==> s in Names
  {
    if IsUnknown(l) then IntToString(l) else Names[l]
  }

  /** stringToLevel: the level a name stands for. */
  function LevelOf(name: string): (r: Option<Level>)
    ensures r.Some? <==> name in Names
    ensures r.Some? ==> !IsUnknown(r.value) && Names[r.value] == name
  {
    if name == "debug" then Some(Debug)
    else if name == "info" then Some(Info)
    else if name == "warn" then Some(Warn)
    else if name == "error" then Some(Error)
    else if name == "fatal" then Some(Fatal)
    else if name == "panic" then Some(Panic)
    else if name == "dpanic" then Some(DebugPanic)
    else None
  }

  datatype LevelError = UnknownLevel

  /** ParseLevelString: the level named by the text, ignoring case; an
      unknown name gives Debug together with the error. */
  function ParseLevelString(txt: string): (r: (Level, Option<LevelError>))
    ensures r.1.None? <==> ToLower(txt) in Names
    ensures r.1.None? ==> !IsUnknown(r.0) && Names[r.0] == ToLower(txt)
    ensures r.1.Some? ==> r == (Debug, Some(UnknownLevel))
  {
    match LevelOf(ToLower(txt))
    case None => (Debug, Some(UnknownLevel))
    case Some(l) => (l, None)
  }

  /** IsLevelReportable: Fatal and above always are; below, what is asked
      is reported when it reaches the minimum. */
  predicate IsLevelReportable(min: Level, asked: Level) {
    asked >= Fatal || asked >= min
  }

  /** Every named level prints as a name that parses back to it. */
  lemma ParseString(l: Level)
    requires !IsUnknown(l)
    ensures ParseLevelString(String(l)) == (l, None)
  {
    var name := Names[l];
    LowerOfLowercase(name);
  }

  /** Only the seven names parse, whatever their case: the text parses
      exactly when it is one of them once lowered. */
  lemma ParseIgnoresCase(txt: string)
    ensures ParseLevelString(txt) == ParseLevelString(ToLower(txt))
  {
    LowerIdempotent(txt);
  }

  /** The names of distinct levels differ, and unknown levels print as numbers. */
  lemma StringDistinguishesLevels(a: Level, b: Level)
    requires !IsUnknown(a) && !IsUnknown(b) && a != b
    ensures String(a) != String(b)
  {
    ParseString(a);
    ParseString(b);
  }

  /** The text of an unknown level never parses as a level. */
  lemma UnknownStringDoesNotParse(l: Level)
    requires IsUnknown(l)
    ensures ParseLevelString(String(l)) == (Debug, Some(UnknownLevel))
  {
    var s := IntToString(l);
    assert s[0] == '-' || IsDigit(s[0]) by {
      if l >= 0 {
        assert IsDigits(s);
      }
    }
    var lowered := ToLower(s);
    assert lowered[0] == s[0];
    forall n | n in Names ensures lowered != n {
      assert |n| > 0 && 'a' <= n[0] <= 'z';
    }
  }

  /** Reporting is monotone: a level at least as severe as a reported one
      is reported too, and so is every level once the minimum is lower. */
  lemma ReportableMonotone(min: Level, asked: Level, min': Level, asked': Level)
    requires IsLevelReportable(min, asked)
    requires min' <= min && asked <= asked'
    ensures IsLevelReportable(min', asked')
  {
  }

  /** Below Fatal, reporting means reaching the minimum. */
  lemma ReportableBelowFatal(min: Level, asked: Level)
    requires asked < Fatal
    ensures IsLevelReportable(min, asked) <==> asked >= min
  {
  }

  lemma LowerOfLowercase(s: string)
    requires forall i :: 0 <= i < |s| ==> 'a' <= s[i] <= 'z'
    ensures ToLower(s) == s
  {
  }

  lemma LowerIdempotent(s: string)
    ensures ToLower(ToLower(s)) == ToLower(s)
  {
  }

  // ------------------------------------------------------------------- pairs

  /** A log argument: a string, or any other value, kept as the text that
      `%+v` prints for it. */
  datatype Value = Str(s: string) | Other(shown: string)

  /** PairValueToString: `%+v` prints a string as itself. */
  function ValueString(v: Value): string {
    match v
    case Str(s) => s
    case Other(shown) => shown
  }

  datatype Pair = Pair(key: string, value: Value)

  /** Pair.String: the quoted key, a colon, and the quoted value text. */
  function PairString(p: Pair): (r: string)
    ensures HasPrefix(r, Quote(p.key) + ": ")
    ensures Unquote(r[..|Quote(p.key)|]) == Some(p.key)
    ensures Unquote(r[|Quote(p.key)| + 2..]) == Some(ValueString(p.value))
  {
    var k, v := Quote(p.key), Quote(ValueString(p.value));
    var r := k + ": " + v;
    assert r[..|k|] == k && r[|k| + 2..] == v;
    UnquoteQuote(p.key);
    UnquoteQuote(ValueString(p.value));
    r
  }

  /** Pairs.Strings: one text per pair, in order. */
  function Strings(ps: seq<Pair>): (r: seq<string>)
    ensures |r| == |ps|
    ensures forall i :: 0 <= i < |ps| ==> r[i] == PairString(ps[i])
  {
    seq(|ps|, i requires 0 <= i < |ps| => PairString(ps[i]))
  }

  /** Pairs.String: the pair texts joined with ", ". */
  function PairsString(ps: seq<Pair>): string {
    Join(Strings(ps), ", ")
  }

  datatype PairsError = KeyNotString | OddArgs

  /** toPairs: consecutive arguments become key/value pairs; a key that is
      not a string is an error, and so is a last argument without a value. */
  function ToPairs(kvs: seq<Value>): (r: Result<seq<Pair>, PairsError>)
    ensures r.Ok? ==> |kvs| % 2 == 0 && |r.value| == |kvs| / 2
    decreases |kvs|
  {
    if |kvs| >= 2 then
      if !kvs[0].Str? then Err(KeyNotString)
      else
        match ToPairs(kvs[2..])
        case Err(e) => Err(e)
        case Ok(rest) => Ok([Pair(kvs[0].s, kvs[1])] + rest)
    else if |kvs| > 0 then Err(OddArgs)
    else Ok([])
  }

  /** A key position: an even index followed by a value. */
  predicate BadKeyAt(kvs: seq<Value>, i: nat) {
    i % 2 == 0 && i + 1 < |kvs| && !kvs[i].Str?
  }

  /** The pairs laid back out as arguments. */
  function Flatten(ps: seq<Pair>): (kvs: seq<Value>)
    ensures |kvs| == 2 * |ps|
  {
    if |ps| == 0 then [] else [Str(ps[0].key), ps[0].value] + Flatten(ps[1..])
  }

  /** toPairs fails on a non-string key anywhere before the end; otherwise
      on an odd count; otherwise it succeeds. */
  lemma {:induction false} ToPairsErrors(kvs: seq<Value>)
    ensures ToPairs(kvs) == Err(KeyNotString) <==> HasBadKey(kvs)
    ensures ToPairs(kvs) == Err(OddArgs) <==> (!HasBadKey(kvs) && |kvs| % 2 == 1)
    ensures ToPairs(kvs).Ok? <==> (!HasBadKey(kvs) && |kvs| % 2 == 0)
    decreases |kvs|
  {
    if |kvs| >= 2 {
      ToPairsErrors(kvs[2..]);
      if kvs[0].Str? {
        BadKeyStep(kvs);
      } else {
        assert BadKeyAt(kvs, 0);
      }
    } else {
      assert forall i: nat :: !BadKeyAt(kvs, i);
    }
  }

  /** Some key position holds a non-string. */
  predicate HasBadKey(kvs: seq<Value>) {
    exists i :: 0 <= i < |kvs| && BadKeyAt(kvs, i)
  }

  /** Behind a string key, the bad keys are those of the rest. */
  lemma BadKeyStep(kvs: seq<Value>)
    requires |kvs| >= 2 && kvs[0].Str?
    ensures HasBadKey(kvs) <==> HasBadKey(kvs[2..])
  {
    var rest := kvs[2..];
    if HasBadKey(rest) {
      var i :| 0 <= i < |rest| && BadKeyAt(rest, i);
      assert BadKeyAt(kvs, i + 2);
    }
    if HasBadKey(kvs) {
      var i :| 0 <= i < |kvs| && BadKeyAt(kvs, i);
      assert i >= 2 && BadKeyAt(rest, i - 2);
    }
  }

  /** A successful toPairs pairs argument 2i with argument 2i + 1, in order. */
  lemma {:induction false} ToPairsContents(kvs: seq<Value>)
    requires ToPairs(kvs).Ok?
    ensures var ps := ToPairs(kvs).value;
      forall i :: 0 <= i < |ps| ==> kvs[2 * i].Str? && ps[i] == Pair(kvs[2 * i].s, kvs[2 * i + 1])
    decreases |kvs|
  {
    if |kvs| >= 2 {
      var rest := kvs[2..];
      ToPairsContents(rest);
      var ps := ToPairs(kvs).value;
      forall i | 0 <= i < |ps| ensures kvs[2 * i].Str? && ps[i] == Pair(kvs[2 * i].s, kvs[2 * i + 1]) {
        if i > 0 {
          assert ps[i] == ToPairs(rest).value[i - 1];
          assert kvs[2 * i] == rest[2 * (i - 1)] && kvs[2 * i + 1] == rest[2 * (i - 1) + 1];
        }
      }
    }
  }

  /** Laying pairs out as arguments and pairing them again gives them back. */
  lemma {:induction false} ToPairsOfFlatten(ps: seq<Pair>)
    ensures ToPairs(Flatten(ps)) == Ok(ps)
    decreases |ps|
  {
    if |ps| > 0 {
      ToPairsOfFlatten(ps[1..]);
      var kvs := Flatten(ps);
      assert kvs[2..] == Flatten(ps[1..]);
      assert [ps[0]] + ps[1..] == ps;
    }
  }

  /** Pairs.String: empty for no pairs, the pair's text for one, and each
      further pair after a ", ". */
  lemma PairsStringSnoc(ps: seq<Pair>, p: Pair)
    ensures PairsString([p]) == PairString(p)
    ensures |ps| > 0 ==> PairsString(ps + [p]) == PairsString(ps) + ", " + PairString(p)
  {
    var t := PairString(p);
    assert Strings([p]) == [t];
    if |ps| > 0 {
      var ts := Strings(ps);
      assert Strings(ps + [p]) == ts + [t] by {
        assert |Strings(ps + [p])| == |ts + [t]|;
        forall i | 0 <= i < |ps| ensures Strings(ps + [p])[i] == (ts + [t])[i] {
          assert (ps + [p])[i] == ps[i];
        }
      }
      JoinSnoc(ts, t, ", ");
    }
  }

  lemma {:induction false} JoinSnoc(parts: seq<string>, last: string, sep: string)
    requires |parts| > 0
    ensures Join(parts + [last], sep) == Join(parts, sep) + sep + last
    decreases |parts|
  {
    if |parts| == 1 {
      assert (parts + [last])[1..] == [last];
    } else {
      JoinSnoc(parts[1..], last, sep);
      assert (parts + [last])[1..] == parts[1..] + [last];
    }
  }
}
