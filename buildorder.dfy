/**
 * The production-queue helpers of the build-order report: a queue is a list of
 * `(frame, target, count)` entries, one per StartProduction order, and placing or finishing
 * items removes counts from the first entries for that target.
 */
module BuildOrder {

  /** One queued production: the frame it started on, what is produced, and how many. */
  datatype Entry<T> = Entry(frame: int, target: T, count: int)

  /** The index of the first entry for `target`, or -1 when there is none. */
  function FirstIndex<T(==)>(items: seq<Entry<T>>, target: T): (i: int)
    ensures -1 <= i < |items|
    ensures i >= 0 ==> items[i].target == target
    ensures forall j :: 0 <= j < |items| && (i == -1 || j < i) ==> items[j].target != target
    decreases |items|
  {
    if items == [] then -1
    else if items[0].target == target then 0
    else
      var k := FirstIndex(items[1..], target);
      if k == -1 then -1 else k + 1
  }

  /**
   * What `_remove_queue_items(queue, target, count)` leaves in the queue: the first entry for
   * the target is decremented when it holds more than `count`; otherwise it is popped and,
   * when it held less, the excess is taken from the next entry for the target.
   */
  function Removed<T(==)>(items: seq<Entry<T>>, target: T, count: int): seq<Entry<T>>
    decreases |items|
  {
    var i := FirstIndex(items, target);
    if i == -1 then items
    else
      var remain := items[i].count - count;
      if remain <= 0 then
        var popped := items[..i] + items[i + 1..];
        if remain != 0 then Removed(popped, target, -remain) else popped
      else
        items[i := items[i].(count := remain)]
  }

  /** The entries left after dropping the first `k` entries for `target`. */
  function Erase<T(==)>(items: seq<Entry<T>>, target: T, k: nat): (r: seq<Entry<T>>)
    ensures |r| <= |items|
    decreases |items|
  {
    if k == 0 || items == [] then items
    else if items[0].target == target then Erase(items[1..], target, k - 1)
    else [items[0]] + Erase(items[1..], target, k)
  }

  /** The number of entries for `target`. */
  function Occurrences<T(==)>(items: seq<Entry<T>>, target: T): (n: nat)
    ensures n <= |items|
    decreases |items|
  {
    if items == [] then 0
    else (if items[0].target == target then 1 else 0) + Occurrences(items[1..], target)
  }

  /** The total count queued for `target`. */
  function Total<T(==)>(items: seq<Entry<T>>, target: T): int
    decreases |items|
  {
    if items == [] then 0
    else (if items[0].target == target then items[0].count else 0) + Total(items[1..], target)
  }

  /** Every entry for `target` holds a positive count (what StartProduction queues). */
  predicate Positive<T(==)>(items: seq<Entry<T>>, target: T)
  {
    forall j :: 0 <= j < |items| && items[j].target == target ==> items[j].count > 0
  }

  /**
   * `a` is `b` with the same frames and targets in the same order, and with the same counts
   * except possibly at `b`'s first entry for `target`.
   */
  predicate Agrees<T(==)>(a: seq<Entry<T>>, b: seq<Entry<T>>, target: T)
  {
    && |a| == |b|
    && forall j :: 0 <= j < |a| ==>
         && a[j].frame == b[j].frame && a[j].target == b[j].target
         && (a[j].count != b[j].count ==> j == FirstIndex(b, target))
  }

  // ---------------------------------------------------------------------------------------
  // The queue object

  /** A queue list, which the helpers edit in place. */
  class Queue<T(==)> {
    var items: seq<Entry<T>>

    constructor (items: seq<Entry<T>>)
      ensures this.items == items
    {
      this.items := items;
    }

    /** `_find_target_in_queue(queue, target)`: the first index whose target matches, or -1. */
    method FindTarget(target: T) returns (i: int)
      ensures i == FirstIndex(items, target)
      ensures -1 <= i < |items|
      ensures i >= 0 ==> items[i].target == target && forall j :: 0 <= j < i ==> items[j].target != target
      ensures i == -1 <==> forall j :: 0 <= j < |items| ==> items[j].target != target
    {
      for k := 0 to |items|
        invariant forall j :: 0 <= j < k ==> items[j].target != target
        invariant FirstIndex(items, target) == FirstIndex(items[k..], target) + (if FirstIndex(items[k..], target) == -1 then 0 else k)
      {
        assert items[k..][1..] == items[k + 1..];
        if items[k].target == target {
          return k;
        }
      }
      assert items[|items|..] == [];
      return -1;
    }

    /** `_remove_queue_items(queue, target, count)`: `queue.pop(i)` or `queue[i] = ...`, then the excess. */
    method RemoveItems(target: T, count: int)
      modifies this
      ensures items == Removed(old(items), target, count)
      decreases |items|
    {
      var i := FindTarget(target);
      if i == -1 {
        return;
      }
      var Entry(qframe, qtarget, qcount) := items[i];
      var remain := qcount - count;
      if remain <= 0 {
        items := items[..i] + items[i + 1..];
        if remain != 0 {
          RemoveItems(target, -remain);
        }
      } else {
        items := items[i := Entry(qframe, qtarget, qcount - count)];
      }
    }
  }

  // ---------------------------------------------------------------------------------------
  // Properties of the removal

  /** Without an entry for the target the queue is left as it was. */
  lemma RemovedNoMatch<T>(items: seq<Entry<T>>, target: T, count: int)
    requires forall j :: 0 <= j < |items| ==> items[j].target != target
    ensures Removed(items, target, count) == items
  {
  }

  /** When the first entry for the target holds more than `count`, only its count changes, by `count`. */
  lemma RemovedDecrements<T>(items: seq<Entry<T>>, target: T, count: int)
    requires FirstIndex(items, target) >= 0
    requires items[FirstIndex(items, target)].count > count
    ensures var i := FirstIndex(items, target);
            var r := Removed(items, target, count);
            |r| == |items| && r[i].count == items[i].count - count &&
            r[i].frame == items[i].frame && r[i].target == target &&
            forall j :: 0 <= j < |items| && j != i ==> r[j] == items[j]
  {
  }

  /** Popping the first entry for the target erases one occurrence. */
  lemma {:induction false} PopIsErase<T>(items: seq<Entry<T>>, target: T)
    requires FirstIndex(items, target) >= 0
    ensures var i := FirstIndex(items, target);
            items[..i] + items[i + 1..] == Erase(items, target, 1)
    decreases |items|
  {
    var i := FirstIndex(items, target);
    if items[0].target == target {
      assert i == 0;
    } else {
      var tail := items[1..];
      var k := FirstIndex(tail, target);
      assert i == k + 1;
      PopIsErase(tail, target);
      assert tail[..k] == items[1..i];
      assert tail[k + 1..] == items[i + 1..];
      assert Erase(items, target, 1) == [items[0]] + Erase(tail, target, 1);
      assert items[..i] == [items[0]] + items[1..i];
    }
  }

  /** Erasing one occurrence and then `k` more erases `k + 1`. */
  lemma {:induction false} EraseTwice<T>(items: seq<Entry<T>>, target: T, k: nat)
    ensures Erase(Erase(items, target, 1), target, k) == Erase(items, target, k + 1)
    decreases |items|
  {
    if items != [] && items[0].target != target {
      EraseTwice(items[1..], target, k);
      var rest := Erase(items[1..], target, 1);
      assert Erase(items, target, 1) == [items[0]] + rest;
      if k > 0 {
        assert ([items[0]] + rest)[1..] == rest;
      }
    }
  }

  /**
   * The surviving entries keep their frames, targets and relative order: the queue after
   * removal is the queue with its first `k` entries for the target erased, for some `k`, and
   * at most the count of the next entry for the target changed.
   */
  lemma {:induction false} RemovedShape<T>(items: seq<Entry<T>>, target: T, count: int)
    ensures exists k: nat :: Agrees(Removed(items, target, count), Erase(items, target, k), target)
    decreases |items|
  {
    var i := FirstIndex(items, target);
    var r := Removed(items, target, count);
    if i == -1 {
      assert r == items && Erase(items, target, 0) == items;
      AgreesSelf(items, target);
    } else {
      var remain := items[i].count - count;
      if remain <= 0 {
        var popped := items[..i] + items[i + 1..];
        PopIsErase(items, target);
        if remain != 0 {
          assert r == Removed(popped, target, -remain);
          RemovedShape(popped, target, -remain);
          var k: nat :| Agrees(Removed(popped, target, -remain), Erase(popped, target, k), target);
          EraseTwice(items, target, k);
          assert Erase(popped, target, k) == Erase(items, target, k + 1);
        } else {
          assert r == Erase(items, target, 1);
          AgreesSelf(r, target);
        }
      } else {
        assert r == items[i := items[i].(count := remain)] && Erase(items, target, 0) == items;
        AgreesUpdate(items, target, remain);
      }
    }
  }

  lemma AgreesSelf<T>(a: seq<Entry<T>>, target: T)
    ensures Agrees(a, a, target)
  {
  }

  /** Changing the count of the first entry for the target keeps the queues in agreement. */
  lemma AgreesUpdate<T>(items: seq<Entry<T>>, target: T, c: int)
    requires FirstIndex(items, target) >= 0
    ensures var i := FirstIndex(items, target);
            Agrees(items[i := items[i].(count := c)], items, target)
  {
  }

  /** Erasing occurrences of one target leaves the entries for every other target as they were. */
  lemma {:induction false} EraseKeepsOthers<T>(items: seq<Entry<T>>, target: T, k: nat, other: T)
    requires other != target
    ensures Occurrences(Erase(items, target, k), other) == Occurrences(items, other)
    ensures Total(Erase(items, target, k), other) == Total(items, other)
    decreases |items|
  {
    if k > 0 && items != [] {
      EraseKeepsOthers(items[1..], target, if items[0].target == target then k - 1 else k, other);
      if items[0].target != target {
        assert ([items[0]] + Erase(items[1..], target, k))[1..] == Erase(items[1..], target, k);
      }
    }
  }

  lemma {:induction false} TotalAppend<T>(a: seq<Entry<T>>, b: seq<Entry<T>>, target: T)
    ensures Total(a + b, target) == Total(a, target) + Total(b, target)
    decreases |a|
  {
    if a == [] {
      assert a + b == b;
    } else {
      TotalAppend(a[1..], b, target);
      assert (a + b)[1..] == a[1..] + b;
    }
  }

  /** Total of a queue written as the part before `i`, entry `i`, and the part after. */
  lemma TotalAt<T>(items: seq<Entry<T>>, i: nat, target: T)
    requires i < |items|
    ensures Total(items, target) ==
            Total(items[..i], target) + (if items[i].target == target then items[i].count else 0) + Total(items[i + 1..], target)
  {
    var rest := [items[i]] + items[i + 1..];
    assert items == items[..i] + rest;
    TotalAppend(items[..i], rest, target);
    assert rest[0] == items[i] && rest[1..] == items[i + 1..];
    assert Total(rest, target) == (if items[i].target == target then items[i].count else 0) + Total(items[i + 1..], target);
  }

  lemma {:induction false} TotalNone<T>(items: seq<Entry<T>>, target: T)
    requires forall j :: 0 <= j < |items| ==> items[j].target != target
    ensures Total(items, target) == 0
    decreases |items|
  {
    if items != [] {
      TotalNone(items[1..], target);
    }
  }

  lemma {:induction false} TotalPositive<T>(items: seq<Entry<T>>, target: T, i: nat)
    requires Positive(items, target) && i < |items| && items[i].target == target
    ensures Total(items, target) >= items[i].count
  {
    TotalAt(items, i, target);
    TotalNonNegative(items[..i], target);
    TotalNonNegative(items[i + 1..], target);
  }

  lemma {:induction false} TotalNonNegative<T>(items: seq<Entry<T>>, target: T)
    requires Positive(items, target)
    ensures Total(items, target) >= 0
    decreases |items|
  {
    if items != [] {
      TotalNonNegative(items[1..], target);
    }
  }

  /**
   * With positive entry counts and a non-negative `count`, the count queued for the target
   * drops by `count`, and to zero when fewer were queued.
   */
  lemma {:induction false} RemovedTotal<T>(items: seq<Entry<T>>, target: T, count: int)
    requires Positive(items, target) && count >= 0
    ensures Total(Removed(items, target, count), target) == if Total(items, target) > count then Total(items, target) - count else 0
    decreases |items|
  {
    var i := FirstIndex(items, target);
    if i == -1 {
      TotalNone(items, target);
    } else {
      var remain := items[i].count - count;
      TotalPositive(items, target, i);
      if remain <= 0 {
        var popped := items[..i] + items[i + 1..];
        TotalPop(items, i, target);
        if remain != 0 {
          RemovedTotal(popped, target, -remain);
        }
      } else {
        TotalUpdate(items, i, target, remain);
      }
    }
  }

  /** Popping entry `i` for the target takes its count off the total and keeps the counts positive. */
  lemma TotalPop<T>(items: seq<Entry<T>>, i: nat, target: T)
    requires i < |items| && items[i].target == target && Positive(items, target)
    ensures Total(items[..i] + items[i + 1..], target) == Total(items, target) - items[i].count
    ensures Positive(items[..i] + items[i + 1..], target)
  {
    var popped := items[..i] + items[i + 1..];
    TotalAt(items, i, target);
    TotalAppend(items[..i], items[i + 1..], target);
    forall j | 0 <= j < |popped| && popped[j].target == target
      ensures popped[j].count > 0
    {
      if j < i {
        assert popped[j] == items[j];
      } else {
        assert popped[j] == items[j + 1];
      }
    }
  }

  /** Setting the count of entry `i` for the target moves the total by the difference. */
  lemma TotalUpdate<T>(items: seq<Entry<T>>, i: nat, target: T, remain: int)
    requires i < |items| && items[i].target == target
    ensures Total(items[i := items[i].(count := remain)], target) == Total(items, target) - items[i].count + remain
  {
    var r := items[i := items[i].(count := remain)];
    TotalAt(items, i, target);
    TotalAt(r, i, target);
    assert r[..i] == items[..i] && r[i + 1..] == items[i + 1..];
  }

  /** Removing items for one target never touches the entries or the total of another target. */
  lemma RemovedKeepsOthers<T>(items: seq<Entry<T>>, target: T, count: int, other: T)
    requires other != target
    ensures Occurrences(Removed(items, target, count), other) == Occurrences(items, other)
    ensures Total(Removed(items, target, count), other) == Total(items, other)
  {
    RemovedShape(items, target, count);
    var k: nat :| Agrees(Removed(items, target, count), Erase(items, target, k), target);
    EraseKeepsOthers(items, target, k, other);
    AgreesKeeps(Removed(items, target, count), Erase(items, target, k), target, other);
  }

  /** Queues that agree up to one count of `target` agree on every other target. */
  lemma {:induction false} AgreesKeeps<T>(a: seq<Entry<T>>, b: seq<Entry<T>>, target: T, other: T)
    requires Agrees(a, b, target) && other != target
    ensures Occurrences(a, other) == Occurrences(b, other) && Total(a, other) == Total(b, other)
    decreases |a|
  {
    if a != [] {
      var f := FirstIndex(b, target);
      assert Agrees(a[1..], b[1..], target) by {
        forall j | 0 <= j < |a[1..]| && a[1..][j].count != b[1..][j].count
          ensures j == FirstIndex(b[1..], target)
        {
          assert a[j + 1].count != b[j + 1].count;
          assert j + 1 == f;
        }
      }
      AgreesKeeps(a[1..], b[1..], target, other);
    }
  }
}
