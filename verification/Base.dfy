/** Stock result types and the handful of sequence facts several modules need. */
module Base {

  datatype Option<+T> = None | Some(value: T)

  datatype Result<+T> = Ok(value: T) | Err(message: string)

  /** Go's signed and unsigned 64-bit words. */
  const TWO_63: int := 0x8000_0000_0000_0000
  const TWO_64: int := 0x1_0000_0000_0000_0000

  type int64 = n: int | -TWO_63 <= n < TWO_63

  type byte = n: int | 0 <= n < 256

  /** `shown` comes from the last element that has this field, or from before the first. */
  ghost predicate FromLast<S, T>(s: seq<S>, field: S -> Option<T>, before: Option<T>, shown: Option<T>) {
    if forall i :: 0 <= i < |s| ==> field(s[i]).None? then shown == before
    else exists i :: 0 <= i < |s| && field(s[i]).Some? && shown == field(s[i]) && NoneAfter(s, field, i)
  }

  ghost predicate NoneAfter<S, T>(s: seq<S>, field: S -> Option<T>, i: int) {
    forall j :: i < j < |s| ==> 0 <= j && field(s[j]).None?
  }

  lemma FromLastSnoc<S, T>(s: seq<S>, x: S, field: S -> Option<T>, before: Option<T>, shown: Option<T>)
    requires FromLast(s, field, before, shown)
    ensures FromLast(s + [x], field, before, if field(x).Some? then field(x) else shown)
  {
    var all := s + [x];
    if field(x).Some? {
      assert all[|s|] == x && NoneAfter(all, field, |s|);
    } else if i :| 0 <= i < |s| && field(s[i]).Some? && shown == field(s[i]) && NoneAfter(s, field, i) {
      assert all[i] == s[i] && NoneAfter(all, field, i);
    } else {
      assert forall i :: 0 <= i < |s| ==> field(s[i]).None?;
    }
  }
}
