/** A cell of a pandas DataFrame read from CSV: a string, or a missing
    value (NaN), which is a float. */
module Table {

  datatype Cell = Str(s: string) | NonStr

  /** Python's str() of a cell; str(float('nan')) is "nan". */
  function AsText(c: Cell): (r: string)
    ensures c.Str? ==> r == c.s
    ensures c.NonStr? ==> r == "nan"
  {
    match c
    case Str(s) => s
    case NonStr => "nan"
  }

  /** The rows whose index label is `key`, in table order: what df.loc
      and df.at select when the index is `labels`. A label that occurs once
      selects one row; a repeated label selects all of its rows. */
  function Labelled<R>(labels: seq<string>, rows: seq<R>, key: string): (r: seq<R>)
    requires |labels| == |rows|
    ensures multiset(labels)[key] == |r|
    ensures forall k :: 0 <= k < |r| ==> r[k] in rows
  {
    if labels == [] then []
    else
      var n := |labels| - 1;
      assert labels == labels[..n] + [labels[n]];
      var init := Labelled(labels[..n], rows[..n], key);
      if labels[n] == key then init + [rows[n]] else init
  }

  /** A label that occurs once selects exactly its own row. */
  lemma {:induction false} LabelledOnce<R>(labels: seq<string>, rows: seq<R>, n: nat)
    requires |labels| == |rows| && n < |labels| && multiset(labels)[labels[n]] == 1
    ensures Labelled(labels, rows, labels[n]) == [rows[n]]
  {
    var last := |labels| - 1;
    var init := labels[..last];
    var x := labels[n];
    assert labels == init + [labels[last]];
    if n == last {
      assert multiset(init)[x] == 0;
    } else {
      assert init[n] == x;
      assert x in multiset(init);
      assert labels[last] != x;
      LabelledOnce(init, rows[..last], n);
    }
  }
}
