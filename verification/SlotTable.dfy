/** Searching a table of slots, lowest index first. */
module SlotTable {
  import opened Words

  function FirstFree<T>(table: seq<Option<T>>): (r: Option<nat>)
    ensures r.Some? ==> r.value < |table| && table[r.value] == None
    ensures r.Some? ==> forall j :: 0 <= j < r.value ==> table[j].Some?
    ensures r.None? ==> forall j :: 0 <= j < |table| ==> table[j].Some?
  {
    if table == [] then None
    else if table[0].None? then Some(0)
    else Later(table, FirstFree(table[1..]))
  }

  /** An index into table[1..] as an index into table. */
  function Later<T>(table: seq<Option<T>>, i: Option<nat>): (r: Option<nat>)
    requires table != [] && (i.Some? ==> i.value < |table[1..]|)
    ensures r == if i.Some? then Some(i.value + 1) else None
    ensures forall j :: 1 <= j < |table| ==> table[j] == table[1..][j - 1]
  {
    if i.Some? then Some(i.value + 1) else None
  }
}
