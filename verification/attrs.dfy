/** Tag attributes (pkg/clutter/clutterindex/attrs.go, and the identical
    helper in internal/pkg/index/attrs.go): the `k` / `k=v` field form of one
    attribute, its inverse, and the key-presence view handed to the linter's
    expression evaluator. */
module Attributes {
  import opened Wrappers
  import opened Strs

  /** Go's `map[string]string`; a nil map reads like the empty map. */
  type Attrs = map<string, string>

  /** Reading a Go map: a missing key reads as the zero value "". */
  function Lookup(a: Attrs, k: string): (v: string)
    ensures k !in a ==> v == ""
    ensures k in a ==> v == a[k]
  {
    if k in a then a[k] else ""
  }

  /** AttrToString: the bare key for an empty value, `k=v` otherwise. The
      rendering always begins with the key and adds `=v` exactly when there
      is a value to add. */
  function AttrToString(k: string, v: string): (r: string)
    ensures HasPrefix(r, k)
    ensures |r| == if v == "" then |k| else |k| + 1 + |v|
    ensures v != "" ==> r[|k|] == '=' && r[|k| + 1..] == v
  {
    if v == "" then k else k + "=" + v
  }

  /** How a field of a stored record is read back: strings.SplitN at the
      first "=", a field without one being a key with the empty value. */
  function SplitAttr(f: string): (kv: (string, string))
    ensures '=' !in kv.0
    ensures '=' !in f ==> kv == (f, "")
    ensures '=' in f ==> kv.0 + "=" + kv.1 == f
  {
    var parts := SplitFirst(f, '=');
    if |parts| == 1 then (parts[0], "") else (parts[0], parts[1])
  }

  /** Splitting a rendered attribute at its first "=" recovers the pair, as
      long as the key itself holds no "=". */
  lemma SplitAttrToString(k: string, v: string)
    requires '=' !in k
    ensures SplitAttr(AttrToString(k, v)) == (k, v)
  {
    if v != "" {
      var f := AttrToString(k, v);
      assert f == k + ['='] + v;
      IndexOfAppend(k, '=', v);
      assert f[..|k|] == k && f[|k| + 1..] == v;
    }
  }

  /** A key holding "=" does not survive: it is cut at its first "=". */
  lemma SplitAttrCutsKey(k: string, v: string)
    requires '=' in k
    ensures SplitAttr(AttrToString(k, v)).0 != k
  {
  }

  /** AttrsStruct: the attributes as seen by expression evaluation. */
  datatype AttrsStruct = AttrsStruct(attrs: Attrs)

  function ToStruct(a: Attrs): AttrsStruct {
    AttrsStruct(a)
  }

  /** AttrsStruct.Has: the key is present, whatever its value. */
  predicate Has(s: AttrsStruct, k: string) {
    k in s.attrs
  }

  /** `Has` tells presence apart from the empty value, which `Lookup` cannot. */
  lemma HasOfToStruct(a: Attrs, k: string)
    ensures Has(ToStruct(a), k) <==> k in a
    ensures Has(ToStruct(a), k) && Lookup(a, k) == "" ==> a[k] == ""
    ensures !Has(ToStruct(a), k) ==> Lookup(a, k) == ""
  {
  }
}
