/** Small datatypes shared by the other modules. */
module Common {
  datatype Option<+T> = None | Some(value: T)

  /** `s` without the element at position `i`. */
  function RemoveAt<T>(s: seq<T>, i: nat): (r: seq<T>)
    requires i < |s|
    ensures |r| == |s| - 1
    ensures forall k :: 0 <= k < |r| ==> r[k] == s[if k < i then k else k + 1]
  {
    s[..i] + s[i + 1..]
  }

  /** Every element of `s` occurs once. */
  ghost predicate NoDuplicates<T(!new)>(s: seq<T>) {
    forall i, j :: 0 <= i < j < |s| ==> s[i] != s[j]
  }

  /** A number above all of `ids`. */
  lemma {:induction false} FreshNumber(ids: set<nat>) returns (r: nat)
    ensures forall i :: i in ids ==> i < r
    decreases ids
  {
    r := 0;
    if ids != {} {
      var i :| i in ids;
      var r' := FreshNumber(ids - {i});
      r := if i < r' then r' else i + 1;
      assert forall j :: j in ids ==> j == i || j in ids - {i};
    }
  }
}
