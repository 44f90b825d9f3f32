/** Fixed tables of optional entries, as the channel and the order book keep them. */
module SlotTables {
  import opened Words

  /** The first empty slot of a table, or its length when there is none. */
  function FirstEmpty<T>(slots: seq<Option<T>>): (k: nat)
    ensures k <= |slots|
    ensures forall j :: 0 <= j < k ==> slots[j].Some?
    ensures k < |slots| ==> slots[k].None?
  {
    if slots == [] || slots[0].None? then 0 else 1 + FirstEmpty(slots[1..])
  }

  /** How many slots are filled. */
  function Occupied<T>(s: seq<Option<T>>): nat {
    if s == [] then 0 else (if s[0].Some? then 1 else 0) + Occupied(s[1..])
  }

  lemma {:induction false} OccupiedClear<T>(s: seq<Option<T>>, k: nat)
    requires k < |s| && s[k].Some?
    ensures Occupied(s[k := None]) == Occupied(s) - 1
  {
    if k == 0 {
      assert s[k := None][1..] == s[1..];
    } else {
      OccupiedClear(s[1..], k - 1);
      assert s[k := None][1..] == s[1..][k - 1 := None];
    }
  }

  lemma {:induction false} OccupiedUpdate<T>(s: seq<Option<T>>, k: nat, x: T)
    requires k < |s|
    ensures Occupied(s[k := Some(x)]) == Occupied(s) + if s[k].Some? then 0 else 1
  {
    if k == 0 {
      assert s[k := Some(x)][1..] == s[1..];
    } else {
      OccupiedUpdate(s[1..], k - 1, x);
      assert s[k := Some(x)][1..] == s[1..][k - 1 := Some(x)];
    }
  }

  lemma {:induction false} OccupiedBound<T>(s: seq<Option<T>>)
    ensures Occupied(s) <= |s|
    ensures Occupied(s) == |s| <==> forall i :: 0 <= i < |s| ==> s[i].Some?
  {
    if s != [] { OccupiedBound(s[1..]); }
  }

  lemma {:induction false} NothingOccupied<T>(s: seq<Option<T>>)
    ensures Occupied(s) == 0 <==> forall i :: 0 <= i < |s| ==> s[i].None?
  {
    if s != [] { NothingOccupied(s[1..]); }
  }
}
