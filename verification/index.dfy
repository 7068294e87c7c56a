/** The tag index (internal/pkg/index/index.go and filter.go's ReadFile, and
    the public snapshot pkg/clutter/clutterindex/index.go, which keeps the
    same order and writes the same text): entries sorted by name and then by
    location, written one record per line under a version header, and read
    back. */
module Index {
  import opened Wrappers
  import opened Strs
  import L = Locations
  import E = Entries

  const VersionMarker := "# v4"

  // ---------------------------------------------------------------- ordering

  /** What the order looks at: the name and the location less its end column. */
  datatype Key = Key(name: string, path: string, line: int, column: int)

  function KeyOf(e: E.Entry): Key {
    Key(e.name, e.loc.path, e.loc.line, e.loc.startColumn)
  }

  /** Lexicographic order on keys, Go's string `<` on the strings. */
  predicate KeyLess(a: Key, b: Key) {
    if a.name != b.name then Strs.Less(a.name, b.name)
    else if a.path != b.path then Strs.Less(a.path, b.path)
    else if a.line != b.line then a.line < b.line
    else a.column < b.column
  }

  /** sorter.Less: by name, and by location between equal names. */
  predicate EntryLess(a: E.Entry, b: E.Entry) {
    if a.name == b.name then L.Less(a.loc, b.loc) else Strs.Less(a.name, b.name)
  }

  /** The entry order is the key order: two entries compare as their keys do. */
  lemma EntryLessIsKeyLess(a: E.Entry, b: E.Entry)
    ensures EntryLess(a, b) <==> KeyLess(KeyOf(a), KeyOf(b))
  {
  }

  /** Keys are totally ordered, so entries are ordered up to equal keys. */
  lemma KeyLessIsStrictTotalOrder(a: Key, b: Key, c: Key)
    ensures !KeyLess(a, a)
    ensures KeyLess(a, b) && KeyLess(b, c) ==> KeyLess(a, c)
    ensures a == b || KeyLess(a, b) || KeyLess(b, a)
  {
    LessIrreflexive(a.name);
    LessIrreflexive(a.path);
    LessTotal(a.name, b.name);
    LessTotal(a.path, b.path);
    if KeyLess(a, b) && KeyLess(b, c) {
      if a.name != b.name && b.name != c.name {
        LessTransitive(a.name, b.name, c.name);
      } else if a.name == b.name && b.name == c.name && a.path != b.path && b.path != c.path {
        LessTransitive(a.path, b.path, c.path);
      }
    }
  }

  /** No entry is placed before one that sorts ahead of it. */
  predicate Sorted(s: seq<E.Entry>) {
    forall i, j :: 0 <= i < j < |s| ==> !EntryLess(s[j], s[i])
  }

  // ----------------------------------------------------------------- sorting

  /** Inserts x after every entry that does not sort after it. */
  function Insert(x: E.Entry, s: seq<E.Entry>): (r: seq<E.Entry>)
    ensures multiset(r) == multiset(s) + multiset{x}
    ensures |r| == |s| + 1
    ensures forall y :: y in r <==> y == x || y in s
  {
    if |s| == 0 then [x]
    else if EntryLess(x, s[0]) then [x] + s
    else
      assert s == [s[0]] + s[1..];
      [s[0]] + Insert(x, s[1..])
  }

  lemma {:induction false} InsertKeepsSorted(x: E.Entry, s: seq<E.Entry>)
    requires Sorted(s)
    ensures Sorted(Insert(x, s))
  {
    if |s| == 0 {
    } else if EntryLess(x, s[0]) {
      var r := Insert(x, s);
      forall i, j | 0 <= i < j < |r| ensures !EntryLess(r[j], r[i]) {
        if i == 0 && EntryLess(r[j], x) {
          assert r[j] == s[j - 1];
          if j - 1 > 0 {
            assert !EntryLess(s[j - 1], s[0]);
          }
          KeyLessIsStrictTotalOrder(KeyOf(r[j]), KeyOf(x), KeyOf(s[0]));
          assert false;
        }
      }
    } else {
      InsertKeepsSorted(x, s[1..]);
      var r := Insert(x, s);
      var t := Insert(x, s[1..]);
      assert r == [s[0]] + t;
      forall i, j | 0 <= i < j < |r| ensures !EntryLess(r[j], r[i]) {
        if i == 0 {
          assert r[j] in t;
          if r[j] != x {
            var k :| 0 <= k < |s[1..]| && s[1..][k] == r[j];
            assert !EntryLess(s[k + 1], s[0]);
          }
        } else {
          assert r[i] == t[i - 1] && r[j] == t[j - 1];
        }
      }
    }
  }

  /** Insertion sort, taking the entries in order. Go's sort.Sort is not
      stable; any order it leaves among equal keys has the same key sequence
      as this one (SortedPermutationsShareKeys). */
  function Sort(s: seq<E.Entry>): (r: seq<E.Entry>)
    ensures Sorted(r)
    ensures multiset(r) == multiset(s)
    ensures |r| == |s|
  {
    if |s| == 0 then []
    else
      var init := s[..|s| - 1];
      assert s == init + [s[|s| - 1]];
      var p := Sort(init);
      InsertKeepsSorted(s[|s| - 1], p);
      Insert(s[|s| - 1], p)
  }

  // ----------------------------------------------- sorted orders agree on keys

  function MapSeq<A, B>(f: A -> B, s: seq<A>): (r: seq<B>)
    ensures |r| == |s|
    ensures forall i :: 0 <= i < |s| ==> r[i] == f(s[i])
  {
    if |s| == 0 then [] else [f(s[0])] + MapSeq(f, s[1..])
  }

  lemma {:induction false} MapSeqAppend<A, B>(f: A -> B, a: seq<A>, b: seq<A>)
    ensures MapSeq(f, a + b) == MapSeq(f, a) + MapSeq(f, b)
  {
    if |a| > 0 {
      assert (a + b)[1..] == a[1..] + b;
      MapSeqAppend(f, a[1..], b);
    } else {
      assert a + b == b;
    }
  }

  lemma MultisetCancel<T>(m1: multiset<T>, m2: multiset<T>, x: T)
    requires m1 + multiset{x} == m2 + multiset{x}
    ensures m1 == m2
  {
    assert m1 == (m1 + multiset{x}) - multiset{x};
    assert m2 == (m2 + multiset{x}) - multiset{x};
  }

  lemma MultisetSwap<T>(x: multiset<T>, y: multiset<T>, z: multiset<T>)
    ensures x + (y + z) == y + (x + z)
  {
    assert forall t :: (x + (y + z))[t] == (y + (x + z))[t];
  }

  /** Taking the same element out of two arrangements of one multiset. */
  lemma RemoveMatching<A>(a: seq<A>, b: seq<A>, j: nat)
    requires |a| > 0 && j < |b| && b[j] == a[0] && multiset(a) == multiset(b)
    ensures multiset(a[1..]) == multiset(b[..j] + b[j + 1..])
    ensures b == b[..j] + ([a[0]] + b[j + 1..])
  {
    var x := a[0];
    var pre, post := b[..j], b[j + 1..];
    assert a == [x] + a[1..];
    assert b == pre + [x] + post;
    assert multiset(a) == multiset(a[1..]) + multiset{x};
    assert multiset(b) == multiset(pre + post) + multiset{x};
    MultisetCancel(multiset(a[1..]), multiset(pre + post), x);
    assert b == pre + ([x] + post);
  }

  /** Reordering a sequence reorders its image. */
  lemma {:induction false} MapPermutation<A, B>(f: A -> B, a: seq<A>, b: seq<A>)
    requires multiset(a) == multiset(b)
    ensures multiset(MapSeq(f, a)) == multiset(MapSeq(f, b))
    decreases |a|
  {
    if |a| == 0 {
      assert |multiset(b)| == 0;
    } else {
      var x := a[0];
      assert x in multiset(b);
      var j :| 0 <= j < |b| && b[j] == x;
      var pre, post := b[..j], b[j + 1..];
      RemoveMatching(a, b, j);
      MapPermutation(f, a[1..], pre + post);
      var ma, mr, mp, mq := MapSeq(f, a), MapSeq(f, a[1..]), MapSeq(f, pre), MapSeq(f, post);
      assert ma == [f(x)] + mr;
      MapSeqAppend(f, pre, post);
      assert multiset(mr) == multiset(mp) + multiset(mq);
      MapSeqAppend(f, pre, [x] + post);
      MapSeqAppend(f, [x], post);
      assert MapSeq(f, [x]) == [f(x)];
      var mb := MapSeq(f, b);
      assert mb == mp + ([f(x)] + mq);
      assert multiset([f(x)] + mq) == multiset{f(x)} + multiset(mq);
      assert multiset(mb) == multiset(mp) + multiset([f(x)] + mq);
      assert multiset(ma) == multiset{f(x)} + multiset(mr);
      MultisetSwap(multiset{f(x)}, multiset(mp), multiset(mq));
    }
  }

  function Keys(s: seq<E.Entry>): (ks: seq<Key>)
    ensures |ks| == |s|
    ensures forall i :: 0 <= i < |s| ==> ks[i] == KeyOf(s[i])
  {
    MapSeq(KeyOf, s)
  }

  predicate KeysSorted(ks: seq<Key>) {
    forall i, j :: 0 <= i < j < |ks| ==> !KeyLess(ks[j], ks[i])
  }

  /** The least key of two sorted arrangements of the same keys is the same. */
  lemma SortedHeadsAgree(ka: seq<Key>, kb: seq<Key>)
    requires KeysSorted(ka) && KeysSorted(kb)
    requires multiset(ka) == multiset(kb) && |ka| > 0
    ensures |kb| > 0 && ka[0] == kb[0]
  {
    assert ka[0] in multiset(kb);
    var j :| 0 <= j < |kb| && kb[j] == ka[0];
    assert kb[0] in multiset(ka);
    var i :| 0 <= i < |ka| && ka[i] == kb[0];
    KeyLessIsStrictTotalOrder(ka[0], kb[0], ka[0]);
  }

  /** Two sorted arrangements of the same keys are the same sequence. */
  lemma {:induction false} SortedKeysUnique(ka: seq<Key>, kb: seq<Key>)
    requires KeysSorted(ka) && KeysSorted(kb)
    requires multiset(ka) == multiset(kb)
    ensures ka == kb
    decreases |ka|
  {
    if |ka| == 0 {
      assert |multiset(kb)| == 0;
    } else {
      SortedHeadsAgree(ka, kb);
      RemoveMatching(ka, kb, 0);
      assert kb[..0] + kb[1..] == kb[1..];
      SortedKeysUnique(ka[1..], kb[1..]);
    }
  }

  /** Any two sorted permutations of the same entries list the same keys in
      the same order: they differ at most among entries with equal keys. */
  lemma SortedPermutationsShareKeys(a: seq<E.Entry>, b: seq<E.Entry>)
    requires Sorted(a) && Sorted(b)
    requires multiset(a) == multiset(b)
    ensures Keys(a) == Keys(b)
  {
    MapPermutation(KeyOf, a, b);
    forall i, j | 0 <= i < j < |a| ensures !KeyLess(Keys(a)[j], Keys(a)[i]) {
      EntryLessIsKeyLess(a[j], a[i]);
    }
    forall i, j | 0 <= i < j < |b| ensures !KeyLess(Keys(b)[j], Keys(b)[i]) {
      EntryLessIsKeyLess(b[j], b[i]);
    }
    SortedKeysUnique(Keys(a), Keys(b));
  }

  /** No two entries share a sort key, so no order is left to the sort. */
  predicate DistinctKeys(s: seq<E.Entry>) {
    forall i, j :: 0 <= i < j < |s| ==> KeyOf(s[i]) != KeyOf(s[j])
  }

  /** Two sorted arrangements of the same entries without equal keys are the
      same sequence, whichever sort produced them. */
  lemma SortedPermutationsAgree(a: seq<E.Entry>, b: seq<E.Entry>)
    requires Sorted(a) && Sorted(b)
    requires multiset(a) == multiset(b)
    requires DistinctKeys(a)
    ensures a == b
  {
    SortedPermutationsShareKeys(a, b);
    assert |a| == |b| by {
      assert |multiset(a)| == |multiset(b)|;
    }
    forall k | 0 <= k < |a| ensures a[k] == b[k] {
      assert b[k] in multiset(a);
      var j :| 0 <= j < |a| && a[j] == b[k];
      assert Keys(a)[k] == Keys(b)[k];
      assert KeyOf(a[j]) == KeyOf(a[k]);
    }
  }

  /** Sorting a sorted sequence again lists the same keys in the same order,
      and changes nothing when no two entries share a key. */
  lemma SortIdempotent(s: seq<E.Entry>)
    ensures multiset(Sort(Sort(s))) == multiset(s)
    ensures Keys(Sort(Sort(s))) == Keys(Sort(s))
    ensures DistinctKeys(Sort(s)) ==> Sort(Sort(s)) == Sort(s)
  {
    SortedPermutationsShareKeys(Sort(Sort(s)), Sort(s));
    if DistinctKeys(Sort(s)) {
      SortedPermutationsAgree(Sort(s), Sort(Sort(s)));
    }
  }

  // ------------------------------------------------------------------- index

  datatype Index = Index(entries: seq<E.Entry>)

  /** Add: append the entries and sort the lot. */
  function Add(i: Index, ents: seq<E.Entry>): (r: Index)
    ensures Sorted(r.entries)
    ensures multiset(r.entries) == multiset(i.entries) + multiset(ents)
  {
    Index(Sort(i.entries + ents))
  }

  /** NewIndex: an empty index with the entries added. */
  function NewIndex(ents: seq<E.Entry>): (r: Index)
    ensures Sorted(r.entries)
    ensures multiset(r.entries) == multiset(ents)
  {
    Add(Index([]), ents)
  }

  function Size(i: Index): (n: nat)
    ensures n == |i.entries|
  {
    |i.entries|
  }

  function Slice(i: Index): (s: seq<E.Entry>)
    ensures s == i.entries
  {
    i.entries
  }

  /** Adding in two steps gives the keys of adding everything at once. */
  lemma AddTwiceIsAddOnce(i: Index, a: seq<E.Entry>, b: seq<E.Entry>)
    ensures Keys(Add(Add(i, a), b).entries) == Keys(Add(i, a + b).entries)
    ensures Size(Add(Add(i, a), b)) == Size(i) + |a| + |b|
  {
    assert multiset(i.entries + (a + b)) == multiset(i.entries) + multiset(a) + multiset(b);
    SortedPermutationsShareKeys(Add(Add(i, a), b).entries, Add(i, a + b).entries);
  }

  /** Adding nothing to an index built by NewIndex keeps its entries and
      their keys in order, and changes nothing when no two entries share a key. */
  lemma AddNothing(ents: seq<E.Entry>)
    ensures multiset(Add(NewIndex(ents), []).entries) == multiset(NewIndex(ents).entries)
    ensures Keys(Add(NewIndex(ents), []).entries) == Keys(NewIndex(ents).entries)
    ensures DistinctKeys(NewIndex(ents).entries) ==> Add(NewIndex(ents), []) == NewIndex(ents)
  {
    var s := NewIndex(ents).entries;
    assert s + [] == s;
    SortedPermutationsShareKeys(Add(NewIndex(ents), []).entries, s);
    if DistinctKeys(s) {
      SortedPermutationsAgree(s, Add(NewIndex(ents), []).entries);
    }
  }

  // ----------------------------------------------------------------- writing

  /** How one entry becomes one line of text and back: Entries' marshal and
      unmarshal over a record codec. */
  datatype Records = Records(marshal: E.Entry -> string, unmarshal: string -> Result<E.Entry, E.RecordError>)

  function RecordsOf(c: E.Codec): Records {
    Records((e: E.Entry) => E.Marshal(e, c), (t: string) => E.Unmarshal(t, c))
  }

  /** Each line followed by a newline. */
  function Render(lines: seq<string>): string {
    if |lines| == 0 then "" else lines[0] + "\n" + Render(lines[1..])
  }

  /** The header line: the version marker, a space, and the comment. */
  function Header(comment: string): string {
    VersionMarker + " " + comment
  }

  /** One record line per entry, in order. */
  function Lines(es: seq<E.Entry>, c: Records): (ls: seq<string>)
    ensures |ls| == |es|
    ensures forall k :: 0 <= k < |ls| ==> ls[k] == c.marshal(es[k])
  {
    if |es| == 0 then [] else [c.marshal(es[0])] + Lines(es[1..], c)
  }

  function EntryLines(i: Index, c: Records): seq<string> {
    Lines(i.entries, c)
  }

  /** WriteEntries: the record lines. */
  function WriteEntries(i: Index, c: Records): string {
    Render(EntryLines(i, c))
  }

  /** WriteFile (and clutterindex.Write): the header line, then the records. */
  function WriteFile(i: Index, comment: string, c: Records): string {
    Header(comment) + "\n" + WriteEntries(i, c)
  }

  // ----------------------------------------------------------------- reading

  /** How the first non-blank line is recognised as the header: ReadFile wants
      the marker followed by a space, clutterindex's FileSource wants the
      marker alone, and either form is what a written header trims to. */
  datatype MarkerCheck = MarkerAndSpace | MarkerAlone | EitherForm

  predicate IsHeader(m: MarkerCheck, text: string) {
    match m
    case MarkerAndSpace => HasPrefix(text, VersionMarker + " ")
    case MarkerAlone => text == VersionMarker
    case EitherForm => text == VersionMarker || HasPrefix(text, VersionMarker + " ")
  }

  datatype ReadError = MissingVersionMarker | BadLine(line: int, cause: E.RecordError)

  /** The scan loop of ReadFile over the lines numbered from n: blank lines
      are skipped, the first other line must be the header, and every later
      one is a record. */
  function ReadLines(lines: seq<string>, n: int, first: bool, m: MarkerCheck, c: Records)
    : (r: Result<seq<E.Entry>, ReadError>)
    ensures r.Ok? ==> |r.value| <= |lines|
    ensures r.Err? && r.error.BadLine? ==> n <= r.error.line < n + |lines|
    ensures r.Err? && r.error.MissingVersionMarker? ==> first
    decreases |lines|
  {
    if |lines| == 0 then Ok([])
    else
      var text := TrimSpace(lines[0]);
      if text == "" then ReadLines(lines[1..], n + 1, first, m, c)
      else if first then
        if !IsHeader(m, text) then Err(MissingVersionMarker)
        else ReadLines(lines[1..], n + 1, false, m, c)
      else
        match c.unmarshal(text)
        case Err(e) => Err(BadLine(n, e))
        case Ok(ent) =>
          match ReadLines(lines[1..], n + 1, false, m, c)
          case Err(e) => Err(e)
          case Ok(rest) => Ok([ent] + rest)
  }

  // ------------------------------------------------- where a read error is

  /** No line before the j-th has text. */
  predicate NoTextBefore(lines: seq<string>, j: nat)
    requires j <= |lines|
    decreases j
  {
    j == 0 || (TrimSpace(lines[0]) == "" && NoTextBefore(lines[1..], j - 1))
  }

  /** The j-th line is still the header's place: the header is wanted and no
      line before has text. */
  predicate HeaderPending(lines: seq<string>, j: nat, first: bool)
    requires j <= |lines|
  {
    first && NoTextBefore(lines, j)
  }

  /** The j-th line reads without error: it is blank, it is the header in
      the header's place, or it is a record that unmarshals. */
  predicate LineReads(lines: seq<string>, j: nat, first: bool, m: MarkerCheck, c: Records)
    requires j < |lines|
  {
    var text := TrimSpace(lines[j]);
    text == "" || (if HeaderPending(lines, j, first) then IsHeader(m, text) else c.unmarshal(text).Ok?)
  }

  /** A record error at line k of the lines numbered from n: the (k - n)-th
      line is a record with text that does not unmarshal, and every line
      before it reads. */
  predicate FailsAt(lines: seq<string>, n: int, first: bool, m: MarkerCheck, c: Records, k: int, e: E.RecordError) {
    && n <= k < n + |lines|
    && TrimSpace(lines[k - n]) != ""
    && !HeaderPending(lines, k - n, first)
    && c.unmarshal(TrimSpace(lines[k - n])) == Err(e)
    && forall j :: 0 <= j < k - n ==> LineReads(lines, j, first, m, c)
  }

  /** Past a blank first line, the header is pending exactly as before. */
  lemma PendingPastBlank(lines: seq<string>, j: nat, first: bool)
    requires 0 < j <= |lines| && TrimSpace(lines[0]) == ""
    ensures HeaderPending(lines, j, first) == HeaderPending(lines[1..], j - 1, first)
  {
  }

  /** Past a first line with text, the header is no longer pending. */
  lemma PendingPastText(lines: seq<string>, j: nat, first: bool)
    requires 0 < j <= |lines| && TrimSpace(lines[0]) != ""
    ensures !HeaderPending(lines, j, first)
  {
  }

  lemma ReadsPastBlank(lines: seq<string>, j: nat, first: bool, m: MarkerCheck, c: Records)
    requires 0 < j < |lines| && TrimSpace(lines[0]) == ""
    requires LineReads(lines[1..], j - 1, first, m, c)
    ensures LineReads(lines, j, first, m, c)
  {
    assert lines[j] == lines[1..][j - 1];
    PendingPastBlank(lines, j, first);
  }

  lemma ReadsPastText(lines: seq<string>, j: nat, first: bool, m: MarkerCheck, c: Records)
    requires 0 < j < |lines| && TrimSpace(lines[0]) != ""
    requires LineReads(lines[1..], j - 1, false, m, c)
    ensures LineReads(lines, j, first, m, c)
  {
    assert lines[j] == lines[1..][j - 1];
    PendingPastText(lines, j, first);
  }

  /** Past a blank first line, the lines before position i still read. */
  lemma PrefixReadsPastBlank(lines: seq<string>, i: nat, first: bool, m: MarkerCheck, c: Records)
    requires 0 < i <= |lines| && TrimSpace(lines[0]) == ""
    requires forall j :: 0 <= j < i - 1 ==> LineReads(lines[1..], j, first, m, c)
    ensures forall j :: 0 <= j < i ==> LineReads(lines, j, first, m, c)
  {
    forall j | 0 < j < i ensures LineReads(lines, j, first, m, c) {
      ReadsPastBlank(lines, j, first, m, c);
    }
  }

  /** Past a first line with text that reads, the lines before position i
      still read. */
  lemma PrefixReadsPastText(lines: seq<string>, i: nat, first: bool, m: MarkerCheck, c: Records)
    requires 0 < i <= |lines| && TrimSpace(lines[0]) != "" && LineReads(lines, 0, first, m, c)
    requires forall j :: 0 <= j < i - 1 ==> LineReads(lines[1..], j, false, m, c)
    ensures forall j :: 0 <= j < i ==> LineReads(lines, j, first, m, c)
  {
    forall j | 0 < j < i ensures LineReads(lines, j, first, m, c) {
      ReadsPastText(lines, j, first, m, c);
    }
  }

  lemma FailsAtBlank(lines: seq<string>, n: int, first: bool, m: MarkerCheck, c: Records, k: int, e: E.RecordError)
    requires |lines| > 0 && TrimSpace(lines[0]) == ""
    requires FailsAt(lines[1..], n + 1, first, m, c, k, e)
    ensures FailsAt(lines, n, first, m, c, k, e)
  {
    var i := k - n;
    assert lines[i] == lines[1..][i - 1];
    PendingPastBlank(lines, i, first);
    PrefixReadsPastBlank(lines, i, first, m, c);
  }

  lemma FailsAtText(lines: seq<string>, n: int, first: bool, m: MarkerCheck, c: Records, k: int, e: E.RecordError)
    requires |lines| > 0 && TrimSpace(lines[0]) != "" && LineReads(lines, 0, first, m, c)
    requires FailsAt(lines[1..], n + 1, false, m, c, k, e)
    ensures FailsAt(lines, n, first, m, c, k, e)
  {
    var i := k - n;
    assert lines[i] == lines[1..][i - 1];
    PendingPastText(lines, i, first);
    PrefixReadsPastText(lines, i, first, m, c);
  }

  lemma FailsAtHere(lines: seq<string>, n: int, m: MarkerCheck, c: Records)
    requires |lines| > 0 && TrimSpace(lines[0]) != "" && c.unmarshal(TrimSpace(lines[0])).Err?
    ensures FailsAt(lines, n, false, m, c, n, c.unmarshal(TrimSpace(lines[0])).error)
  {
  }

  /** The scan loop past a record that unmarshals. */
  lemma ReadRecordOkStep(lines: seq<string>, n: int, m: MarkerCheck, c: Records)
    requires |lines| > 0 && TrimSpace(lines[0]) != "" && c.unmarshal(TrimSpace(lines[0])).Ok?
    ensures ReadLines(lines, n, false, m, c).Err? <==> ReadLines(lines[1..], n + 1, false, m, c).Err?
    ensures ReadLines(lines, n, false, m, c).Err? ==>
      ReadLines(lines, n, false, m, c).error == ReadLines(lines[1..], n + 1, false, m, c).error
  {
  }

  /** The scan loop on a record that does not unmarshal. */
  lemma ReadRecordErrStep(lines: seq<string>, n: int, m: MarkerCheck, c: Records)
    requires |lines| > 0 && TrimSpace(lines[0]) != "" && c.unmarshal(TrimSpace(lines[0])).Err?
    ensures ReadLines(lines, n, false, m, c) == Err(BadLine(n, c.unmarshal(TrimSpace(lines[0])).error))
  {
  }

  /** A first line with text that ends in a record error was the header. */
  lemma ReadHeaderErrStep(lines: seq<string>, n: int, m: MarkerCheck, c: Records)
    requires |lines| > 0 && TrimSpace(lines[0]) != ""
    requires ReadLines(lines, n, true, m, c).Err? && ReadLines(lines, n, true, m, c).error.BadLine?
    ensures IsHeader(m, TrimSpace(lines[0]))
  {
  }

  lemma {:induction false} ReadLinesFailsAt(lines: seq<string>, n: int, first: bool, m: MarkerCheck, c: Records,
                                            k: int, e: E.RecordError)
    requires ReadLines(lines, n, first, m, c) == Err(BadLine(k, e))
    ensures FailsAt(lines, n, first, m, c, k, e)
    decreases |lines|, 1
  {
    var text := TrimSpace(lines[0]);
    if text == "" {
      FailsPastBlank(lines, n, first, m, c, k, e);
    } else if first {
      FailsPastHeader(lines, n, m, c, k, e);
    } else if c.unmarshal(text).Err? {
      ReadRecordErrStep(lines, n, m, c);
      FailsAtHere(lines, n, m, c);
    } else {
      FailsPastRecord(lines, n, m, c, k, e);
    }
  }

  /** The error past a blank first line is the error of the rest. */
  lemma {:induction false} FailsPastBlank(lines: seq<string>, n: int, first: bool, m: MarkerCheck, c: Records,
                                          k: int, e: E.RecordError)
    requires |lines| > 0 && TrimSpace(lines[0]) == ""
    requires ReadLines(lines, n, first, m, c) == Err(BadLine(k, e))
    ensures FailsAt(lines, n, first, m, c, k, e)
    decreases |lines|, 0
  {
    ReadBlankStep(lines, n, first, m, c);
    assert FailsAt(lines[1..], n + 1, first, m, c, k, e) by {
      ReadLinesFailsAt(lines[1..], n + 1, first, m, c, k, e);
    }
    FailsAtBlank(lines, n, first, m, c, k, e);
  }

  /** A record error after the first line with text: that line was the
      header, and the error is the error of the rest. */
  lemma {:induction false} FailsPastHeader(lines: seq<string>, n: int, m: MarkerCheck, c: Records,
                                           k: int, e: E.RecordError)
    requires |lines| > 0 && TrimSpace(lines[0]) != ""
    requires ReadLines(lines, n, true, m, c) == Err(BadLine(k, e))
    ensures FailsAt(lines, n, true, m, c, k, e)
    decreases |lines|, 0
  {
    ReadHeaderErrStep(lines, n, m, c);
    ReadHeaderStep(lines, n, m, c);
    assert FailsAt(lines[1..], n + 1, false, m, c, k, e) by {
      ReadLinesFailsAt(lines[1..], n + 1, false, m, c, k, e);
    }
    FailsAtText(lines, n, true, m, c, k, e);
  }

  /** The error past a record that unmarshals is the error of the rest. */
  lemma {:induction false} FailsPastRecord(lines: seq<string>, n: int, m: MarkerCheck, c: Records,
                                           k: int, e: E.RecordError)
    requires |lines| > 0 && TrimSpace(lines[0]) != "" && c.unmarshal(TrimSpace(lines[0])).Ok?
    requires ReadLines(lines, n, false, m, c) == Err(BadLine(k, e))
    ensures FailsAt(lines, n, false, m, c, k, e)
    decreases |lines|, 0
  {
    ReadRecordOkStep(lines, n, m, c);
    assert FailsAt(lines[1..], n + 1, false, m, c, k, e) by {
      ReadLinesFailsAt(lines[1..], n + 1, false, m, c, k, e);
    }
    FailsAtText(lines, n, false, m, c, k, e);
  }

  /** A record error names the physical line it is on, counting from n: that
      line is a record that does not unmarshal, with the error reported, and
      every line before it reads, so it is the first bad line. */
  lemma ReadLinesReportsLine(lines: seq<string>, n: int, first: bool, m: MarkerCheck, c: Records,
                             k: int, e: E.RecordError)
    requires ReadLines(lines, n, first, m, c) == Err(BadLine(k, e))
    ensures n <= k < n + |lines|
    ensures TrimSpace(lines[k - n]) != "" && !HeaderPending(lines, k - n, first)
    ensures c.unmarshal(TrimSpace(lines[k - n])) == Err(e)
    ensures forall j :: 0 <= j < k - n ==> LineReads(lines, j, first, m, c)
  {
    ReadLinesFailsAt(lines, n, first, m, c, k, e);
  }

  /** ReadFile over the text of a file: its lines are numbered from 1 and the
      entries read go through NewIndex. */
  function ReadFileWith(text: string, m: MarkerCheck, c: Records): (r: Result<Index, ReadError>)
    ensures r.Ok? ==> Sorted(r.value.entries)
  {
    match ReadLines(Split(text, '\n'), 1, true, m, c)
    case Err(e) => Err(e)
    case Ok(ents) => Ok(NewIndex(ents))
  }

  /** ReadFile as written: the header must start with the marker and a space. */
  function ReadFileAsWritten(text: string, c: Records): (r: Result<Index, ReadError>)
    ensures r.Ok? ==> Sorted(r.value.entries)
  {
    ReadFileWith(text, MarkerAndSpace, c)
  }

  /** ReadFile accepting every header that WriteFile writes. */
  function ReadFile(text: string, c: Records): (r: Result<Index, ReadError>)
    ensures r.Ok? ==> Sorted(r.value.entries)
  {
    ReadFileWith(text, EitherForm, c)
  }

  /** Lines that are all blank read as no entries, header or not. */
  lemma {:induction false} BlankLinesReadNothing(lines: seq<string>, n: int, first: bool, m: MarkerCheck, c: Records)
    requires forall i :: 0 <= i < |lines| ==> TrimSpace(lines[i]) == ""
    ensures ReadLines(lines, n, first, m, c) == Ok([])
    decreases |lines|
  {
    if |lines| > 0 {
      ReadBlankStep(lines, n, first, m, c);
      var after := lines[1..];
      assert forall i :: 0 <= i < |after| ==> TrimSpace(after[i]) == "" by {
        forall i | 0 <= i < |after| ensures TrimSpace(after[i]) == "" {
          assert after[i] == lines[i + 1];
        }
      }
      BlankLinesReadNothing(after, n + 1, first, m, c);
    }
  }

  lemma ReadBlankStep(lines: seq<string>, n: int, first: bool, m: MarkerCheck, c: Records)
    requires |lines| > 0 && TrimSpace(lines[0]) == ""
    ensures ReadLines(lines, n, first, m, c) == ReadLines(lines[1..], n + 1, first, m, c)
  {
  }

  /** Input with nothing but blank lines is an empty index, header or not. */
  lemma BlankFileIsEmpty(text: string, m: MarkerCheck, c: Records)
    requires AllSpace(text)
    ensures ReadFileWith(text, m, c) == Ok(Index([]))
  {
    var lines := Split(text, '\n');
    forall i | 0 <= i < |lines| ensures TrimSpace(lines[i]) == "" {
      SplitPiecesOfSpace(text, i);
    }
    BlankLinesReadNothing(lines, 1, true, m, c);
  }

  /** The pieces of blank text are blank. */
  lemma {:induction false} SplitPiecesOfSpace(text: string, i: nat)
    requires AllSpace(text) && i < |Split(text, '\n')|
    ensures AllSpace(Split(text, '\n')[i])
    decreases |text|
  {
    var idx := IndexOf(text, '\n');
    if idx.Some? {
      var k := idx.value;
      var rest := text[k + 1..];
      assert Split(text, '\n') == [text[..k]] + Split(rest, '\n') by {
        SplitUnfold(text, '\n');
      }
      if i > 0 {
        assert AllSpace(rest) by {
          forall j | 0 <= j < |rest| ensures IsSpace(rest[j]) {
            assert rest[j] == text[k + 1 + j];
          }
        }
        SplitPiecesOfSpace(rest, i - 1);
      } else {
        forall j | 0 <= j < k ensures IsSpace(text[..k][j]) {
          assert text[..k][j] == text[j];
        }
      }
    }
  }

  // -------------------------------------------------------------- round trip

  /** The trimmed header line is the marker alone exactly when the comment is
      blank, and the marker, a space and more otherwise. */
  lemma HeaderTrim(comment: string)
    ensures TrimSpace(Header(comment)) == VersionMarker <==> AllSpace(comment)
    ensures AllSpace(comment) || HasPrefix(TrimSpace(Header(comment)), VersionMarker + " ")
  {
    assert |VersionMarker| == 4 && VersionMarker[0] == '#' && VersionMarker[3] == '4';
    TrimAfterWord(VersionMarker, comment);
  }

  /** A word without surrounding space, a space, and a comment: trimming
      leaves the word alone exactly when the comment is blank, and the word,
      the space and more otherwise. */
  lemma TrimAfterWord(w: string, comment: string)
    requires |w| > 0 && !IsSpace(w[0]) && !IsSpace(w[|w| - 1])
    ensures TrimSpace(w + " " + comment) == w <==> AllSpace(comment)
    ensures AllSpace(comment) || HasPrefix(TrimSpace(w + " " + comment), w + " ")
  {
    if AllSpace(comment) {
      TrimAfterWordBlank(w, comment);
    } else {
      TrimAfterWordText(w, comment);
    }
  }

  /** Trimming the word, a space and a blank comment leaves the word. */
  lemma TrimAfterWordBlank(w: string, comment: string)
    requires |w| > 0 && !IsSpace(w[0]) && !IsSpace(w[|w| - 1]) && AllSpace(comment)
    ensures TrimSpace(w + " " + comment) == w
  {
    var s := w + " " + comment;
    var n := |w|;
    assert TrimSpace(s) == TrimRightSpace(s) by {
      assert s[0] == w[0];
      TrimSpaceOfNonSpaceStart(s);
    }
    assert n - 1 < |TrimRightSpace(s)| by {
      assert s[n - 1] == w[n - 1];
      TrimRightSpaceKeeps(s, n - 1);
    }
    assert |TrimRightSpace(s)| <= n by {
      assert s[n..] == " " + comment;
      assert AllSpace(s[n..]);
      TrimRightSpaceDrops(s, n);
    }
    assert s[..n] == w;
  }

  /** Trimming the word, a space and a comment with text keeps the word, the
      space and more. */
  lemma TrimAfterWordText(w: string, comment: string)
    requires |w| > 0 && !IsSpace(w[0]) && !AllSpace(comment)
    ensures |TrimSpace(w + " " + comment)| > |w| + 1
    ensures HasPrefix(TrimSpace(w + " " + comment), w + " ")
  {
    var s := w + " " + comment;
    var n := |w|;
    assert TrimSpace(s) == TrimRightSpace(s) by {
      assert s[0] == w[0];
      TrimSpaceOfNonSpaceStart(s);
    }
    var p :| 0 <= p < |comment| && !IsSpace(comment[p]);
    assert n + 1 + p < |TrimRightSpace(s)| by {
      assert s[p + n + 1] == comment[p];
      TrimRightSpaceKeeps(s, p + n + 1);
    }
    assert s[..n + 1] == w + " ";
  }

  /** Storing loses nothing but an empty scope. */
  function Dropped(es: seq<E.Entry>): (ds: seq<E.Entry>)
    ensures |ds| == |es|
    ensures forall k :: 0 <= k < |es| ==> ds[k] == E.DropEmptyScope(es[k])
  {
    MapSeq(E.DropEmptyScope, es)
  }

  /** What an entry needs to come back from its record line: a parseable
      location, no "=" in a key, a codec that reads its own output, and a
      line that is one non-blank line with no surrounding space. */
  predicate Storable(e: E.Entry, c: E.Codec) {
    && L.Printable(e.loc)
    && (forall k :: k in e.attrs ==> '=' !in k)
    && c.decode(c.encode(E.MarshalFields(e))) == Ok(E.MarshalFields(e))
    && E.Marshal(e, c) != ""
    && '\n' !in E.Marshal(e, c)
    && TrimSpace(E.Marshal(e, c)) == E.Marshal(e, c)
  }

  /** Splitting rendered lines at newlines gives the lines and a last, empty one. */
  lemma {:induction false} SplitRender(lines: seq<string>)
    requires forall k :: 0 <= k < |lines| ==> '\n' !in lines[k]
    ensures Split(Render(lines), '\n') == lines + [""]
  {
    if |lines| == 0 {
      assert Render(lines) == "";
    } else {
      var t := lines[1..];
      assert Render(lines) == lines[0] + ['\n'] + Render(t);
      SplitCons(lines[0], '\n', Render(t));
      assert Split(Render(t), '\n') == t + [""] by {
        assert forall k :: 0 <= k < |t| ==> t[k] == lines[k + 1];
        SplitRender(t);
      }
      assert lines + [""] == [lines[0]] + (t + [""]) by {
        assert lines == [lines[0]] + t;
      }
    }
  }

  /** The record line of an entry is one trimmed, non-blank line that
      unmarshals to the entry less an empty scope. */
  predicate ReadsBack(e: E.Entry, c: Records) {
    var line := c.marshal(e);
    && line != ""
    && TrimSpace(line) == line
    && c.unmarshal(line) == Ok(E.DropEmptyScope(e))
  }

  lemma StorableReadsBack(e: E.Entry, c: E.Codec)
    requires Storable(e, c)
    ensures ReadsBack(e, RecordsOf(c)) && '\n' !in RecordsOf(c).marshal(e)
  {
    E.UnmarshalMarshal(e, c);
  }

  /** One record line read by the scan loop. */
  lemma ReadRecordStep(lines: seq<string>, n: int, m: MarkerCheck, c: Records, ent: E.Entry)
    requires |lines| > 0 && lines[0] != "" && TrimSpace(lines[0]) == lines[0]
    requires c.unmarshal(lines[0]) == Ok(ent)
    ensures ReadLines(lines, n, false, m, c) ==
      match ReadLines(lines[1..], n + 1, false, m, c)
      case Err(e) => Err(e)
      case Ok(rest) => Ok([ent] + rest)
  {
  }

  /** The header line read by the scan loop. */
  lemma ReadHeaderStep(lines: seq<string>, n: int, m: MarkerCheck, c: Records)
    requires |lines| > 0 && IsHeader(m, TrimSpace(lines[0]))
    ensures ReadLines(lines, n, true, m, c) == ReadLines(lines[1..], n + 1, false, m, c)
  {
    assert TrimSpace(lines[0]) != "";
  }

  /** The record lines of such entries read back as those entries. */
  lemma {:induction false} ReadEntryLines(es: seq<E.Entry>, n: int, m: MarkerCheck, c: Records)
    requires forall k :: 0 <= k < |es| ==> ReadsBack(es[k], c)
    ensures ReadLines(Lines(es, c) + [""], n, false, m, c) == Ok(Dropped(es))
    decreases |es|
  {
    if |es| == 0 {
      assert Lines(es, c) + [""] == [""];
      assert TrimSpace("") == "";
    } else {
      assert ReadLines(Lines(es[1..], c) + [""], n + 1, false, m, c) == Ok(Dropped(es[1..])) by {
        ReadEntryLines(es[1..], n + 1, m, c);
      }
      ReadEntryLinesStep(es, n, m, c);
    }
  }

  /** The first record line reads back, in front of what the rest reads. */
  lemma ReadEntryLinesStep(es: seq<E.Entry>, n: int, m: MarkerCheck, c: Records)
    requires |es| > 0 && ReadsBack(es[0], c)
    requires ReadLines(Lines(es[1..], c) + [""], n + 1, false, m, c) == Ok(Dropped(es[1..]))
    ensures ReadLines(Lines(es, c) + [""], n, false, m, c) == Ok(Dropped(es))
  {
    var ls := Lines(es, c) + [""];
    var d := E.DropEmptyScope(es[0]);
    assert ls[1..] == Lines(es[1..], c) + [""];
    assert ls[0] == c.marshal(es[0]);
    ReadRecordStep(ls, n, m, c, d);
    assert Dropped(es) == [d] + Dropped(es[1..]);
  }

  /** The lines of a written file, header included. */
  lemma WrittenLines(i: Index, comment: string, c: Records)
    requires forall k :: 0 <= k < |i.entries| ==> '\n' !in c.marshal(i.entries[k])
    requires '\n' !in comment
    ensures Split(WriteFile(i, comment, c), '\n') == [Header(comment)] + (EntryLines(i, c) + [""])
  {
    var ls := [Header(comment)] + EntryLines(i, c);
    assert Render(ls) == WriteFile(i, comment, c) by {
      assert ls[1..] == EntryLines(i, c);
    }
    assert '\n' !in Header(comment);
    SplitRender(ls);
  }

  /** Dropping an empty scope keeps every key, so a sorted index stays sorted. */
  lemma DroppedSorted(es: seq<E.Entry>)
    requires Sorted(es)
    ensures Sorted(Dropped(es))
  {
  }

  /** The scan loop reads the entries of a written index back, less empty
      scopes, when the header check accepts the trimmed header line, the
      header is one line and every record line reads back. */
  lemma ReadLinesOfWritten(i: Index, comment: string, m: MarkerCheck, c: Records)
    requires forall k :: 0 <= k < |i.entries| ==> ReadsBack(i.entries[k], c)
    requires forall k :: 0 <= k < |i.entries| ==> '\n' !in c.marshal(i.entries[k])
    requires '\n' !in comment
    requires IsHeader(m, TrimSpace(Header(comment)))
    ensures ReadLines(Split(WriteFile(i, comment, c), '\n'), 1, true, m, c) == Ok(Dropped(i.entries))
  {
    var lines := Split(WriteFile(i, comment, c), '\n');
    assert lines == [Header(comment)] + (EntryLines(i, c) + [""]) by {
      WrittenLines(i, comment, c);
    }
    assert ReadLines(lines, 1, true, m, c) == ReadLines(lines[1..], 2, false, m, c) by {
      ReadHeaderStep(lines, 1, m, c);
    }
    assert lines[1..] == Lines(i.entries, c) + [""];
    ReadEntryLines(i.entries, 2, m, c);
  }

  /** The header WriteFile writes passes the lenient check whatever the
      comment, and the check as written exactly when the comment is not blank. */
  lemma WrittenHeaderChecks(comment: string)
    ensures IsHeader(EitherForm, TrimSpace(Header(comment)))
    ensures IsHeader(MarkerAndSpace, TrimSpace(Header(comment))) <==> !AllSpace(comment)
  {
    HeaderTrim(comment);
    if AllSpace(comment) {
      assert |VersionMarker| < |VersionMarker + " "|;
    }
  }

  /** What reading a written index gives back: the entries less empty
      scopes, with their keys in the written order, and exactly the written
      sequence when no two entries share a key; the order among equal keys
      is the sort's to choose. */
  predicate GivesBack(r: Result<Index, ReadError>, es: seq<E.Entry>) {
    && r.Ok?
    && multiset(r.value.entries) == multiset(Dropped(es))
    && Keys(r.value.entries) == Keys(es)
    && (DistinctKeys(es) ==> r == Ok(Index(Dropped(es))))
  }

  /** Dropping an empty scope keeps every key. */
  lemma DroppedKeys(es: seq<E.Entry>)
    ensures Keys(Dropped(es)) == Keys(es)
    ensures DistinctKeys(es) ==> DistinctKeys(Dropped(es))
  {
  }

  /** A written sorted index reads back under any header check that accepts
      its header line. */
  lemma ReadWrittenWith(i: Index, comment: string, m: MarkerCheck, c: Records)
    requires Sorted(i.entries)
    requires forall k :: 0 <= k < |i.entries| ==> ReadsBack(i.entries[k], c)
    requires forall k :: 0 <= k < |i.entries| ==> '\n' !in c.marshal(i.entries[k])
    requires '\n' !in comment
    requires IsHeader(m, TrimSpace(Header(comment)))
    ensures GivesBack(ReadFileWith(WriteFile(i, comment, c), m, c), i.entries)
  {
    var text := WriteFile(i, comment, c);
    var ds := Dropped(i.entries);
    assert ReadLines(Split(text, '\n'), 1, true, m, c) == Ok(ds) by {
      ReadLinesOfWritten(i, comment, m, c);
    }
    var got := NewIndex(ds).entries;
    assert ReadFileWith(text, m, c) == Ok(Index(got));
    assert Sorted(ds) by {
      DroppedSorted(i.entries);
    }
    DroppedKeys(i.entries);
    SortedPermutationsShareKeys(got, ds);
    if DistinctKeys(i.entries) {
      SortedPermutationsAgree(ds, got);
    }
  }

  /** Reading a written index gives it back, less empty scopes, whatever the
      comment. */
  lemma ReadWhatWasWritten(i: Index, comment: string, c: Records)
    requires Sorted(i.entries)
    requires forall k :: 0 <= k < |i.entries| ==> ReadsBack(i.entries[k], c)
    requires forall k :: 0 <= k < |i.entries| ==> '\n' !in c.marshal(i.entries[k])
    requires '\n' !in comment
    ensures GivesBack(ReadFile(WriteFile(i, comment, c), c), i.entries)
  {
    WrittenHeaderChecks(comment);
    ReadWrittenWith(i, comment, EitherForm, c);
  }

  /** ReadFile as written gives a written index back when the comment is not
      blank. */
  lemma ReadAsWrittenWhatWasWritten(i: Index, comment: string, c: Records)
    requires Sorted(i.entries)
    requires forall k :: 0 <= k < |i.entries| ==> ReadsBack(i.entries[k], c)
    requires forall k :: 0 <= k < |i.entries| ==> '\n' !in c.marshal(i.entries[k])
    requires '\n' !in comment && !AllSpace(comment)
    ensures GivesBack(ReadFileAsWritten(WriteFile(i, comment, c), c), i.entries)
  {
    WrittenHeaderChecks(comment);
    ReadWrittenWith(i, comment, MarkerAndSpace, c);
  }

  /** The same for entries stored through the record codec. */
  lemma ReadWhatWasWrittenThroughCodec(i: Index, comment: string, c: E.Codec)
    requires Sorted(i.entries)
    requires forall k :: 0 <= k < |i.entries| ==> Storable(i.entries[k], c)
    requires '\n' !in comment
    ensures GivesBack(ReadFile(WriteFile(i, comment, RecordsOf(c)), RecordsOf(c)), i.entries)
  {
    forall k | 0 <= k < |i.entries|
      ensures ReadsBack(i.entries[k], RecordsOf(c)) && '\n' !in RecordsOf(c).marshal(i.entries[k])
    {
      StorableReadsBack(i.entries[k], c);
    }
    ReadWhatWasWritten(i, comment, RecordsOf(c));
  }

  /** As written, ReadFile refuses the header WriteFile writes for a blank
      comment, since the trimmed line has no space after the marker. */
  lemma ReadFileAsWrittenRejectsBlankComment(i: Index, comment: string, c: Records)
    requires AllSpace(comment) && '\n' !in comment
    ensures ReadFileAsWritten(WriteFile(i, comment, c), c) == Err(MissingVersionMarker)
  {
    var text := WriteFile(i, comment, c);
    var h := Header(comment);
    assert text == h + ['\n'] + WriteEntries(i, c);
    assert '\n' !in h;
    IndexOfAppend(h, '\n', WriteEntries(i, c));
    SplitUnfold(text, '\n');
    assert text[..|h|] == h;
    HeaderTrim(comment);
  }
}
