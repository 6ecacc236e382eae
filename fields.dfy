/** Reading a field from an API record whose key casing varies: the
    `getField` accessor of the lead and job lists, and the `??` chains used
    on technician records. */
module Fields {
  import opened Values

  /** `rec[key] !== undefined && rec[key] !== null && `${rec[key]}`.trim() !== ""` */
  predicate Present(rec: Record, key: string) {
    key in rec && rec[key] != Null && Trim(Text(rec[key])) != ""
  }

  /** The position of the first key satisfying `p`, or `|keys|` when none does. */
  function FirstWhere(keys: seq<string>, p: string -> bool): (i: int)
    ensures 0 <= i <= |keys|
    ensures forall j :: 0 <= j < i ==> !p(keys[j])
    ensures i < |keys| ==> p(keys[i])
    decreases |keys|
  {
    if keys == [] || p(keys[0]) then 0
    else
      var i := FirstWhere(keys[1..], p);
      assert forall j :: 1 <= j < i + 1 ==> keys[j] == keys[1..][j - 1];
      i + 1
  }

  /** The position of the first candidate key whose value is present, or
      `|keys|` when there is none. */
  function FirstPresentIndex(rec: Record, keys: seq<string>): (i: int)
    ensures 0 <= i <= |keys|
    ensures forall j :: 0 <= j < i ==> !Present(rec, keys[j])
    ensures i < |keys| ==> Present(rec, keys[i])
  {
    FirstWhere(keys, k => Present(rec, k))
  }

  /** `getField(rec, keys, fallback)`: the loop over the candidate keys
      returns the value under the first one that is present, and the fallback
      only when every candidate fails; so the result is the fallback or a value
      that is neither null nor blank. */
  function GetField(rec: Record, keys: seq<string>, fallback: Value): (r: Value)
    ensures (exists k :: 0 <= k < |keys| && Present(rec, keys[k])) ==> r == rec[keys[FirstPresentIndex(rec, keys)]]
    ensures (forall k :: 0 <= k < |keys| ==> !Present(rec, keys[k])) ==> r == fallback
    ensures r == fallback || (r != Null && Trim(Text(r)) != "")
  {
    var i := FirstPresentIndex(rec, keys);
    if i < |keys| then rec[keys[i]] else fallback
  }

  /** A value that is not a string is present whenever it is not null: only a
      string can be blank. */
  lemma NonStringPresent(rec: Record, key: string)
    requires key in rec && rec[key] != Null && !rec[key].Str?
    ensures Present(rec, key)
  {
    TextBlankOnlyForStrings(rec[key]);
    TrimEmptyIffBlank(Text(rec[key]));
  }

  /** `getField` with no candidate key present gives the fallback, and
      with the first one present gives its value. */
  lemma GetFieldFirstOrNone(rec: Record, keys: seq<string>, fallback: Value)
    requires |keys| > 0
    ensures (forall i :: 0 <= i < |keys| ==> !Present(rec, keys[i])) ==> GetField(rec, keys, fallback) == fallback
    ensures Present(rec, keys[0]) ==> GetField(rec, keys, fallback) == rec[keys[0]]
  {
    if Present(rec, keys[0]) {
      GetFieldFirst(rec, keys, fallback);
    }
  }

  /** When the first candidate key is present, `getField` returns its value. */
  lemma GetFieldFirst(rec: Record, keys: seq<string>, fallback: Value)
    requires |keys| > 0 && Present(rec, keys[0])
    ensures GetField(rec, keys, fallback) == rec[keys[0]]
  {
    assert FirstPresentIndex(rec, keys) == 0;
  }

  /** When key `i` is the first present one, `getField` returns its value. */
  lemma GetFieldAt(rec: Record, keys: seq<string>, fallback: Value, i: int)
    requires 0 <= i < |keys| && Present(rec, keys[i])
    requires forall j :: 0 <= j < i ==> !Present(rec, keys[j])
    ensures GetField(rec, keys, fallback) == rec[keys[i]]
  {
    assert FirstPresentIndex(rec, keys) == i;
  }

  // ---------------------------------------------------------------- nullish coalescing

  /** `rec[key]`; `None` stands for `undefined`. */
  function Lookup(rec: Record, key: string): Option<Value> {
    if key in rec then Some(rec[key]) else None
  }

  /** null or undefined */
  predicate Nullish(o: Option<Value>) { o.None? || o.value == Null }

  /** `rec[keys[0]] ?? … ?? rec[keys[n-1]] ?? last` */
  function Coalesce(rec: Record, keys: seq<string>, last: Option<Value>): (r: Option<Value>)
    ensures forall i :: 0 <= i < |keys| && !Nullish(Lookup(rec, keys[i]))
              && (forall j :: 0 <= j < i ==> Nullish(Lookup(rec, keys[j])))
              ==> r == Lookup(rec, keys[i])
    ensures (forall i :: 0 <= i < |keys| ==> Nullish(Lookup(rec, keys[i]))) ==> r == last
    ensures !Nullish(last) ==> !Nullish(r)
    decreases |keys|
  {
    if keys == [] then last
    else if !Nullish(Lookup(rec, keys[0])) then Lookup(rec, keys[0])
    else
      var r := Coalesce(rec, keys[1..], last);
      assert forall i :: 1 <= i < |keys| ==> keys[i] == keys[1..][i - 1];
      r
  }
}
