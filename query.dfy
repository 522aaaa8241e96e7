/** `session.query(Model).filter(condition).first()` over a table kept in scan order. */
module Query {
  import opened Wrappers

  /** The position of the first row that satisfies `p`, if any. */
  function FirstIndex<T>(rows: seq<T>, p: T -> bool): (r: Option<nat>)
    ensures r.Some? ==> r.value < |rows| && p(rows[r.value])
    ensures r.Some? ==> forall j :: 0 <= j < r.value ==> !p(rows[j])
    ensures r.None? ==> forall j :: 0 <= j < |rows| ==> !p(rows[j])
  {
    if |rows| == 0 then None
    else if p(rows[0]) then Some(0)
    else match FirstIndex(rows[1..], p)
      case None => None
      case Some(k) => Some(k + 1)
  }

  /** The first row that satisfies `p`, or `None` when no row does. */
  function First<T>(rows: seq<T>, p: T -> bool): (r: Option<T>)
    ensures r.Some? ==> r.value in rows && p(r.value)
    ensures r.None? ==> forall x :: x in rows ==> !p(x)
  {
    match FirstIndex(rows, p)
    case None => None
    case Some(i) => Some(rows[i])
  }

  /** Appending a row that satisfies `p` to a table where none does makes it the answer. */
  lemma FirstOfAppended<T>(rows: seq<T>, x: T, p: T -> bool)
    requires forall y :: y in rows ==> !p(y)
    requires p(x)
    ensures First(rows + [x], p) == Some(x)
  {
    assert (rows + [x])[|rows|] == x;
    forall j | 0 <= j < |rows| ensures !p((rows + [x])[j]) {
      assert (rows + [x])[j] == rows[j];
    }
  }

  /** Appending a row that does not satisfy `p` changes nothing about the answer. */
  lemma FirstOfAppendedOther<T>(rows: seq<T>, x: T, p: T -> bool)
    requires !p(x)
    ensures First(rows + [x], p) == First(rows, p)
  {
    var s := rows + [x];
    forall j | 0 <= j < |rows| ensures s[j] == rows[j] { }
    match FirstIndex(rows, p)
    case None =>
      forall j | 0 <= j < |s| ensures !p(s[j]) { if j == |rows| { assert s[j] == x; } }
    case Some(i) =>
      assert s[i] == rows[i];
  }
}
