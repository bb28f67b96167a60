/** An optional value, and least elements of sets of numbers. */
module Options {
  datatype Option<+T> = None | Some(value: T)

  ghost function LeastOf(s: set<nat>): (f: nat)
    requires s != {}
    ensures f in s && forall g :: g in s ==> f <= g
  {
    var f :| f in s;
    if s == {f} then f else
    assert s - {f} != {} by { assert s != {f}; }
    var g := LeastOf(s - {f});
    assert forall h :: h in s ==> h == f || h in s - {f};
    if f < g then f else g
  }
}
