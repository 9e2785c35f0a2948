/** The exception ring (vita-gdb/src/kernel/mpsc.rs), run here by one thread at a time. */
module MpscRing {
  import opened Words

  /** Places occupied between `tail` and `head` in a ring of `cap` slots. */
  function Used(head: nat, tail: nat, cap: nat): (n: nat)
    requires head < cap && tail < cap
    ensures n < cap
  {
    if tail <= head then head - tail else head + cap - tail
  }

  /** The slot k places after `tail`. */
  function Slot(tail: nat, k: nat, cap: nat): (i: nat)
    requires tail < cap && k < cap
    ensures i < cap
  {
    if tail + k < cap then tail + k else tail + k - cap
  }

  /** Advancing an index modulo the capacity moves it one slot on. */
  lemma Next(i: nat, cap: nat)
    requires i < cap
    ensures (i + 1) % cap == if i + 1 == cap then 0 else i + 1
  {
  }

  /** Indices in range, and every slot from `tail` up to `head` initialised. */
  ghost predicate ValidRing<T>(buf: seq<Option<T>>, head: nat, tail: nat) {
    && head < |buf| && tail < |buf|
    && forall k :: 0 <= k < Used(head, tail, |buf|) ==> buf[Slot(tail, k, |buf|)].Some?
  }

  /** The items in the ring, oldest first. */
  ghost function Items<T>(buf: seq<Option<T>>, head: nat, tail: nat): (items: seq<T>)
    requires ValidRing(buf, head, tail)
    ensures |items| == Used(head, tail, |buf|)
  {
    seq(Used(head, tail, |buf|), k requires 0 <= k < Used(head, tail, |buf|) => buf[Slot(tail, k, |buf|)].value)
  }

  /** Writing the slot at `head` changes none of the items. */
  lemma WriteAtHead<T>(buf: seq<Option<T>>, head: nat, tail: nat, item: T)
    requires ValidRing(buf, head, tail)
    ensures ValidRing(buf[head := Some(item)], head, tail)
    ensures Items(buf[head := Some(item)], head, tail) == Items(buf, head, tail)
  {
  }

  /** Moving `head` past an initialised slot appends its item. */
  lemma AdvanceHead<T>(buf: seq<Option<T>>, head: nat, tail: nat)
    requires ValidRing(buf, head, tail) && buf[head].Some? && (head + 1) % |buf| != tail
    ensures Used(head, tail, |buf|) + 1 == Used((head + 1) % |buf|, tail, |buf|)
    ensures ValidRing(buf, (head + 1) % |buf|, tail)
    ensures Items(buf, (head + 1) % |buf|, tail) == Items(buf, head, tail) + [buf[head].value]
  {
    Next(head, |buf|);
  }

  /** Moving `tail` on removes the oldest item. */
  lemma AdvanceTail<T>(buf: seq<Option<T>>, head: nat, tail: nat)
    requires ValidRing(buf, head, tail) && head != tail
    ensures ValidRing(buf, head, (tail + 1) % |buf|) && buf[tail].Some?
    ensures Items(buf, head, tail) == [buf[tail].value] + Items(buf, head, (tail + 1) % |buf|)
  {
    Next(tail, |buf|);
    var next := (tail + 1) % |buf|;
    assert buf[Slot(tail, 0, |buf|)].Some?;
    forall k | 0 <= k < Used(head, next, |buf|) ensures Slot(next, k, |buf|) == Slot(tail, k + 1, |buf|) {
    }
  }

  lemma FullExactly(head: nat, tail: nat, cap: nat)
    requires head < cap && tail < cap
    ensures (head + 1) % cap == tail <==> Used(head, tail, cap) == cap - 1
  {
    Next(head, cap);
  }

  class MpscRing<T(0)> {
    const buf: array<Option<T>>
    var head: nat
    var tail: nat

    ghost predicate Valid()
      reads this, buf
    {
      ValidRing(buf[..], head, tail)
    }

    ghost function Contents(): seq<T>
      reads this, buf
      requires Valid()
    {
      Items(buf[..], head, tail)
    }

    constructor (cap: nat)
      requires cap > 0
      ensures Valid() && Contents() == [] && buf.Length == cap && fresh(buf)
    {
      buf := new Option<T>[cap](_ => None);
      head, tail := 0, 0;
    }

    method Push(item: T) returns (ok: bool)
      requires Valid()
      modifies buf, `head
      ensures Valid()
      ensures ok <==> |old(Contents())| < buf.Length - 1
      ensures Contents() == if ok then old(Contents()) + [item] else old(Contents())
    {
      FullExactly(head, tail, buf.Length);
      var next := (head + 1) % buf.Length;
      if next == tail {
        return false;
      }
      WriteAtHead(buf[..], head, tail, item);
      AdvanceHead(buf[..][head := Some(item)], head, tail);
      buf[head] := Some(item);
      assert buf[..] == old(buf[..])[head := Some(item)];
      head := next;
      return true;
    }

    method Pop() returns (item: Option<T>)
      requires Valid()
      modifies `tail
      ensures Valid()
      ensures item == if old(Contents()) == [] then None else Some(old(Contents())[0])
      ensures Contents() == if old(Contents()) == [] then [] else old(Contents())[1..]
    {
      if tail == head {
        return None;
      }
      AdvanceTail(buf[..], head, tail);
      item := buf[tail];
      tail := (tail + 1) % buf.Length;
    }

    /** Drops every item, oldest first. */
    method Clear() returns (dropped: seq<T>)
      requires Valid()
      modifies `tail
      ensures Valid() && Contents() == [] && dropped == old(Contents())
    {
      ghost var items := Contents();
      dropped := [];
      var idx: nat := tail;
      while idx != head
        invariant idx < buf.Length && ValidRing(buf[..], head, idx)
        invariant dropped + Items(buf[..], head, idx) == items
        modifies {}
        decreases |items| - |dropped|
      {
        AdvanceTail(buf[..], head, idx);
        dropped := dropped + [buf[idx].value];
        idx := (idx + 1) % buf.Length;
      }
      tail := head;
    }

    /** `head - tail` on 32-bit words; the callers only ask whether it is zero. */
    method Len() returns (n: u32)
      requires Valid() && buf.Length <= TWO_TO_THE_32
      ensures n > 0 <==> Contents() != []
    {
      n := (head - tail) % TWO_TO_THE_32;
    }
  }
}
