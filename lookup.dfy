/**
 * The transporter-name lookup: the dictionary built by zipping the
 * spreadsheet's "Transporter ID" column with its "Name" column, and the
 * `dict.get(key, "")` query made for every data row.
 */
module Lookup {

  /** Python's `zip(a, b)`: pairs by position, as long as the shorter input. */
  function Zip<A, B>(a: seq<A>, b: seq<B>): (r: seq<(A, B)>)
    ensures |r| == if |a| <= |b| then |a| else |b|
    ensures forall i :: 0 <= i < |r| ==> r[i] == (a[i], b[i])
  {
    if a == [] || b == [] then [] else [(a[0], b[0])] + Zip(a[1..], b[1..])
  }

  /** Python's `dict(pairs)`: each pair in turn sets its key, so a later pair overwrites an earlier one. */
  function DictOf<K, V>(pairs: seq<(K, V)>): map<K, V> {
    if pairs == [] then map[]
    else DictOf(pairs[..|pairs| - 1])[pairs[|pairs| - 1].0 := pairs[|pairs| - 1].1]
  }

  /**
   * A key is in the dictionary exactly when some pair carries it, and its
   * value is the one of the last pair that does.
   */
  lemma {:induction false} DictOfLastWins<K, V>(pairs: seq<(K, V)>, key: K)
    ensures key in DictOf(pairs) <==> exists i :: 0 <= i < |pairs| && pairs[i].0 == key
    ensures forall i :: 0 <= i < |pairs| && pairs[i].0 == key && (forall j :: i < j < |pairs| ==> pairs[j].0 != key) ==>
              key in DictOf(pairs) && DictOf(pairs)[key] == pairs[i].1
  {
    if pairs != [] {
      var n := |pairs| - 1;
      var init := pairs[..n];
      DictOfLastWins(init, key);
      if pairs[n].0 != key {
        assert forall i :: 0 <= i < n ==> init[i] == pairs[i];
      }
    }
  }

  /** `dict(zip(ids, names))`, the `name_map` of `process_files`. */
  function NameMap(ids: seq<string>, names: seq<string>): map<string, string> {
    DictOf(Zip(ids, names))
  }

  /** `m.get(key, "")`. */
  function Find(m: map<string, string>, key: string): string {
    if key in m then m[key] else ""
  }

  /**
   * Looking an identifier up in `name_map`: it finds the name in the same
   * position as the last occurrence of the identifier among the first
   * `min(|ids|, |names|)` identifiers, and the empty string when the
   * identifier does not occur there. The match is exact: no trimming, case
   * folding or other normalisation of the key.
   */
  lemma NameMapLookup(ids: seq<string>, names: seq<string>, id: string)
    ensures var n := if |ids| <= |names| then |ids| else |names|;
      && ((forall i :: 0 <= i < n ==> ids[i] != id) ==> Find(NameMap(ids, names), id) == "")
      && (forall i :: 0 <= i < n && ids[i] == id && (forall j :: i < j < n ==> ids[j] != id) ==>
                Find(NameMap(ids, names), id) == names[i])
  {
    var pairs := Zip(ids, names);
    DictOfLastWins(pairs, id);
  }
}
