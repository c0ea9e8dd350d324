/**
 * The lazy-deletion priority queue of priority_queue.py: a heap of
 * `[priority, count, item]` entries, a map from each item to its current
 * entry, an insertion counter and the number of live items.
 */
module PriorityQueues {
  import opened Wrappers

  /** The last field of a heap entry: the item, or the REMOVED marker. */
  datatype Slot<T> = Live(item: T) | Removed

  /** A heap entry `[priority, count, item]`. */
  datatype Entry<T> = Entry(priority: real, count: nat, slot: Slot<T>)

  /** Heap order: entries compare by priority, then by their unique count. */
  predicate Before<T>(a: Entry<T>, b: Entry<T>) {
    a.priority < b.priority || (a.priority == b.priority && a.count < b.count)
  }

  /** The four fields of a queue: the heap `pq`, `entry_finder` (each item to its entry),
      the next counter value and `size`. */
  datatype QueueState<T> = QueueState(pq: seq<Entry<T>>, finder: map<T, Entry<T>>, counter: nat, size: int)

  function Empty<T>(): QueueState<T> {
    QueueState([], map[], 0, 0)
  }

  /** Position of the entry `heappop` takes: one that no other entry precedes. */
  function MinIndex<T>(pq: seq<Entry<T>>): (i: nat)
    requires |pq| > 0
    ensures i < |pq|
    ensures forall j :: 0 <= j < |pq| ==> !Before(pq[j], pq[i])
  {
    if |pq| == 1 then 0
    else
      var k := MinIndex(pq[1..]) + 1;
      if Before(pq[k], pq[0]) then k else 0
  }

  function RemoveAt<E>(s: seq<E>, i: nat): (r: seq<E>)
    requires i < |s|
    ensures |r| == |s| - 1
    ensures forall k :: 0 <= k < |r| ==> r[k] == if k < i then s[k] else s[k + 1]
  {
    s[..i] + s[i + 1..]
  }

  /** The heap after the entry with count `c` has had its item overwritten by REMOVED. */
  function MarkRemoved<T>(pq: seq<Entry<T>>, c: nat): (r: seq<Entry<T>>)
    ensures |r| == |pq|
    ensures forall i :: 0 <= i < |pq| ==> r[i] == if pq[i].count == c then pq[i].(slot := Removed) else pq[i]
  {
    seq(|pq|, i requires 0 <= i < |pq| => if pq[i].count == c then pq[i].(slot := Removed) else pq[i])
  }

  /** Counts are unique and below the counter. */
  ghost predicate CountsFresh<T>(pq: seq<Entry<T>>, counter: nat) {
    && (forall i, j :: 0 <= i < j < |pq| ==> pq[i].count != pq[j].count)
    && (forall i :: 0 <= i < |pq| ==> pq[i].count < counter)
  }

  /** Every live heap entry is the entry `entry_finder` holds for its item. */
  ghost predicate LiveTracked<T>(pq: seq<Entry<T>>, finder: map<T, Entry<T>>) {
    forall i :: 0 <= i < |pq| && pq[i].slot.Live? ==> pq[i].slot.item in finder && finder[pq[i].slot.item] == pq[i]
  }

  /** Every entry `entry_finder` holds is a live heap entry of its item. */
  ghost predicate FinderLive<T>(pq: seq<Entry<T>>, finder: map<T, Entry<T>>) {
    forall x :: x in finder ==> finder[x].slot == Live(x) && exists i :: 0 <= i < |pq| && pq[i] == finder[x]
  }

  /** The consistency the public operations keep; `size` counts the items. */
  ghost predicate Consistent<T>(s: QueueState<T>) {
    && CountsFresh(s.pq, s.counter)
    && LiveTracked(s.pq, s.finder)
    && FinderLive(s.pq, s.finder)
    && s.size == |s.finder|
  }

  /** `_remove_item`: `None` is the `KeyError` for an item without an entry. Otherwise the
      item's entry is marked REMOVED, `size` drops by one and the item leaves
      `entry_finder` (this last step is the correction listed under Findings in the README;
      RemoveItemAsWritten is the code as it stands). */
  function RemoveItemSpec<T>(s: QueueState<T>, x: T): Option<QueueState<T>> {
    if x !in s.finder then None
    else Some(QueueState(MarkRemoved(s.pq, s.finder[x].count), s.finder - {x}, s.counter, s.size - 1))
  }

  /** `insert`: retire the item's current entry, if any, then push a fresh entry
      `[priority, counter, item]` and make it the item's entry. */
  function InsertSpec<T>(s: QueueState<T>, x: T, p: real): QueueState<T> {
    var s1 := if x in s.finder then RemoveItemSpec(s, x).value else s;
    var e := Entry(p, s1.counter, Live(x));
    QueueState(s1.pq + [e], s1.finder[x := e], s1.counter + 1, s1.size + 1)
  }

  /** `pop`: take heap minima until one is live; that item leaves `entry_finder` and is
      returned. Stale entries taken on the way stay discarded; an exhausted heap is the
      `KeyError` (`None`), with the heap left empty. */
  function PopSpec<T>(s: QueueState<T>): (QueueState<T>, Option<T>)
    decreases |s.pq|
  {
    if |s.pq| == 0 then (s, None)
    else
      var i := MinIndex(s.pq);
      var rest := s.(pq := RemoveAt(s.pq, i));
      match s.pq[i].slot
      case Removed => PopSpec(rest)
      case Live(x) => (rest.(finder := s.finder - {x}, size := s.size - 1), Some(x))
  }

  /** `test`: the item has a key in `entry_finder`. (The source then compares the entry list
      itself with the REMOVED marker, a comparison that never holds.) */
  function TestSpec<T>(s: QueueState<T>, x: T): bool {
    x in s.finder
  }

  lemma MapRemoveSize<K, V>(m: map<K, V>, k: K)
    requires k in m
    ensures |m - {k}| == |m| - 1
  {
  }

  lemma MapRemoveThenSet<K, V>(m: map<K, V>, k: K, v: V)
    ensures (m - {k})[k := v] == m[k := v]
  {
    assert (m - {k})[k := v].Keys == m[k := v].Keys;
  }

  lemma RemoveKeepsTracked<T>(s: QueueState<T>, x: T)
    requires Consistent(s) && x in s.finder
    ensures var s' := RemoveItemSpec(s, x).value;
      CountsFresh(s'.pq, s'.counter) && LiveTracked(s'.pq, s'.finder)
  {
  }

  lemma RemoveKeepsKeys<T>(s: QueueState<T>, x: T)
    requires Consistent(s) && x in s.finder
    ensures var s' := RemoveItemSpec(s, x).value; FinderLive(s'.pq, s'.finder)
  {
    var s' := RemoveItemSpec(s, x).value;
    forall y | y in s'.finder
      ensures exists i :: 0 <= i < |s'.pq| && s'.pq[i] == s'.finder[y]
    {
      var i :| 0 <= i < |s.pq| && s.pq[i] == s.finder[y];
      var j :| 0 <= j < |s.pq| && s.pq[j] == s.finder[x];
      assert i != j;
      assert s'.pq[i] == s.pq[i];
    }
  }

  /** Removing a present item retires exactly its entry; a missing item is a `KeyError`. */
  lemma {:induction false} RemoveItemCorrect<T>(s: QueueState<T>, x: T)
    requires Consistent(s)
    ensures RemoveItemSpec(s, x).None? <==> !TestSpec(s, x)
    ensures TestSpec(s, x) ==>
      var s' := RemoveItemSpec(s, x).value;
      && Consistent(s')
      && s'.finder == s.finder - {x}
      && s'.size == s.size - 1
      && !TestSpec(s', x)
  {
    if x in s.finder {
      RemoveKeepsTracked(s, x);
      RemoveKeepsKeys(s, x);
      MapRemoveSize(s.finder, x);
    }
  }

  lemma PushKeepsConsistent<T>(s: QueueState<T>, x: T, p: real)
    requires Consistent(s) && x !in s.finder
    ensures var e := Entry(p, s.counter, Live(x));
      Consistent(QueueState(s.pq + [e], s.finder[x := e], s.counter + 1, s.size + 1))
  {
    var e := Entry(p, s.counter, Live(x));
    var pq', finder' := s.pq + [e], s.finder[x := e];
    assert CountsFresh(pq', s.counter + 1);
    assert LiveTracked(pq', finder') by {
      forall i | 0 <= i < |pq'| && pq'[i].slot.Live?
        ensures pq'[i].slot.item in finder' && finder'[pq'[i].slot.item] == pq'[i]
      {
        if i < |s.pq| {
          assert pq'[i] == s.pq[i];
        }
      }
    }
    assert FinderLive(pq', finder') by {
      forall y | y in finder'
        ensures exists i :: 0 <= i < |pq'| && pq'[i] == finder'[y]
      {
        if y == x {
          assert pq'[|s.pq|] == e;
        } else {
          var i :| 0 <= i < |s.pq| && s.pq[i] == s.finder[y];
          assert pq'[i] == finder'[y];
        }
      }
    }
  }

  /** After `insert(x, p)` the item's entry holds `p`, whatever it held before (the last
      insert wins); every other item keeps its entry, `size` grows only for a new item,
      and `test(x)` holds. */
  lemma {:induction false} InsertCorrect<T>(s: QueueState<T>, x: T, p: real)
    requires Consistent(s)
    ensures var s' := InsertSpec(s, x, p);
      && Consistent(s')
      && s'.finder == s.finder[x := Entry(p, s.counter, Live(x))]
      && s'.size == (if TestSpec(s, x) then s.size else s.size + 1)
      && s'.counter == s.counter + 1
      && TestSpec(s', x)
  {
    if x in s.finder {
      InsertPresent(s, x, p);
    } else {
      PushKeepsConsistent(s, x, p);
    }
  }

  /** `insert` as two steps: drop the item's entry if it has one, then push a fresh one. */
  lemma InsertSteps<T>(s0: QueueState<T>, s1: QueueState<T>, x: T, p: real)
    requires s1 == if x in s0.finder then RemoveItemSpec(s0, x).value else s0
    ensures InsertSpec(s0, x, p) == QueueState(s1.pq + [Entry(p, s1.counter, Live(x))],
      s1.finder[x := Entry(p, s1.counter, Live(x))], s1.counter + 1, s1.size + 1)
  {
  }

  lemma InsertPresent<T>(s: QueueState<T>, x: T, p: real)
    requires Consistent(s) && x in s.finder
    ensures var s' := InsertSpec(s, x, p);
      && Consistent(s')
      && s'.finder == s.finder[x := Entry(p, s.counter, Live(x))]
      && s'.size == s.size
      && s'.counter == s.counter + 1
  {
    var e := Entry(p, s.counter, Live(x));
    var s1 := RemoveItemSpec(s, x).value;
    assert Consistent(s1) && s1.finder == s.finder - {x} && s1.size == s.size - 1 by {
      RemoveItemCorrect(s, x);
    }
    PushKeepsConsistent(s1, x, p);
    MapRemoveThenSet(s.finder, x, e);
  }

  lemma RemoveAtCounts<T>(pq: seq<Entry<T>>, i: nat, counter: nat)
    requires CountsFresh(pq, counter) && i < |pq|
    ensures CountsFresh(RemoveAt(pq, i), counter)
  {
    var pq' := RemoveAt(pq, i);
    forall a, b | 0 <= a < b < |pq'|
      ensures pq'[a].count != pq'[b].count
    {
      var a', b' := if a < i then a else a + 1, if b < i then b else b + 1;
      assert pq'[a] == pq[a'] && pq'[b] == pq[b'];
    }
  }

  /** Dropping heap position `i` keeps every other entry `entry_finder` holds. */
  lemma RemoveAtFinder<T>(pq: seq<Entry<T>>, i: nat, finder: map<T, Entry<T>>)
    requires FinderLive(pq, finder) && i < |pq|
    requires forall y :: y in finder ==> finder[y] != pq[i]
    ensures FinderLive(RemoveAt(pq, i), finder)
  {
    var pq' := RemoveAt(pq, i);
    forall y | y in finder
      ensures exists k :: 0 <= k < |pq'| && pq'[k] == finder[y]
    {
      var j :| 0 <= j < |pq| && pq[j] == finder[y];
      var k := if j < i then j else j - 1;
      assert pq'[k] == finder[y];
    }
  }

  lemma RemoveAtTracked<T>(pq: seq<Entry<T>>, i: nat, finder: map<T, Entry<T>>, finder': map<T, Entry<T>>)
    requires LiveTracked(pq, finder) && i < |pq|
    requires forall k :: 0 <= k < |pq| && k != i && pq[k].slot.Live? ==>
      pq[k].slot.item in finder' && finder'[pq[k].slot.item] == finder[pq[k].slot.item]
    ensures LiveTracked(RemoveAt(pq, i), finder')
  {
    var pq' := RemoveAt(pq, i);
    forall k | 0 <= k < |pq'| && pq'[k].slot.Live?
      ensures pq'[k].slot.item in finder' && finder'[pq'[k].slot.item] == pq'[k]
    {
      var k' := if k < i then k else k + 1;
      assert pq'[k] == pq[k'];
    }
  }

  lemma PopStaleKeeps<T>(s: QueueState<T>, i: nat)
    requires Consistent(s) && i < |s.pq| && s.pq[i].slot == Removed
    ensures Consistent(s.(pq := RemoveAt(s.pq, i)))
  {
    RemoveAtCounts(s.pq, i, s.counter);
    RemoveAtFinder(s.pq, i, s.finder);
    RemoveAtTracked(s.pq, i, s.finder, s.finder);
  }

  lemma PopLiveKeeps<T>(s: QueueState<T>, i: nat)
    requires Consistent(s) && i < |s.pq| && s.pq[i].slot.Live?
    ensures var x := s.pq[i].slot.item;
      Consistent(QueueState(RemoveAt(s.pq, i), s.finder - {x}, s.counter, s.size - 1))
  {
    var x := s.pq[i].slot.item;
    var finder' := s.finder - {x};
    RemoveAtCounts(s.pq, i, s.counter);
    assert FinderLive(s.pq, finder');
    forall y | y in finder'
      ensures finder'[y] != s.pq[i]
    {
      var j :| 0 <= j < |s.pq| && s.pq[j] == s.finder[y];
    }
    RemoveAtFinder(s.pq, i, finder');
    forall k | 0 <= k < |s.pq| && k != i && s.pq[k].slot.Live?
      ensures s.pq[k].slot.item in finder' && finder'[s.pq[k].slot.item] == s.finder[s.pq[k].slot.item]
    {
      assert s.pq[k].count != s.pq[i].count;
    }
    RemoveAtTracked(s.pq, i, s.finder, finder');
    MapRemoveSize(s.finder, x);
  }

  /** `pop` returns a live item whose entry no live entry precedes: least priority, ties to
      the oldest insert. The item leaves the queue and `size` drops by one. With no live
      item it is the `KeyError` (`None`) and the heap is left empty. */
  lemma {:induction false} PopCorrect<T>(s: QueueState<T>)
    requires Consistent(s)
    ensures var s', r := PopSpec(s).0, PopSpec(s).1;
      && Consistent(s')
      && s'.counter == s.counter
      && (s.finder == map[] ==> r == None && s'.pq == [] && s'.finder == s.finder)
      && (s.finder != map[] ==>
            && r.Some? && TestSpec(s, r.value)
            && s'.finder == s.finder - {r.value}
            && s'.size == s.size - 1
            && !TestSpec(s', r.value)
            && (forall y :: y in s.finder ==> !Before(s.finder[y], s.finder[r.value])))
    decreases |s.pq|
  {
    if |s.pq| == 0 {
      assert s.finder.Keys == {};
    } else {
      var i := MinIndex(s.pq);
      var rest := s.(pq := RemoveAt(s.pq, i));
      match s.pq[i].slot
      case Removed =>
        PopStaleKeeps(s, i);
        PopCorrect(rest);
      case Live(x) =>
        PopLiveKeeps(s, i);
        MapRemoveSize(s.finder, x);
        forall y | y in s.finder
          ensures !Before(s.finder[y], s.finder[x])
        {
          var j :| 0 <= j < |s.pq| && s.pq[j] == s.finder[y];
        }
    }
  }

  /** `insert` of one item with each priority of `ps` in turn. */
  function InsertAll<T>(s: QueueState<T>, x: T, ps: seq<real>): QueueState<T>
    decreases |ps|
  {
    if ps == [] then s else InsertAll(InsertSpec(s, x, ps[0]), x, ps[1..])
  }

  lemma MapSetTwice<K, V>(m: map<K, V>, k: K, v: V, w: V)
    ensures m[k := v][k := w] == m[k := w]
  {
  }

  lemma {:induction false} InsertAllCorrect<T>(s: QueueState<T>, x: T, ps: seq<real>)
    requires Consistent(s) && |ps| > 0
    ensures var s' := InsertAll(s, x, ps);
      && Consistent(s')
      && x in s'.finder
      && s'.finder == s.finder[x := s'.finder[x]]
      && s'.finder[x].priority == ps[|ps| - 1]
    decreases |ps|
  {
    var s1 := InsertSpec(s, x, ps[0]);
    InsertCorrect(s, x, ps[0]);
    if |ps| > 1 {
      InsertAllCorrect(s1, x, ps[1..]);
      var s' := InsertAll(s1, x, ps[1..]);
      assert InsertAll(s, x, ps) == s';
      assert ps[1..][|ps[1..]| - 1] == ps[|ps| - 1];
      MapSetTwice(s.finder, x, s1.finder[x], s'.finder[x]);
    } else {
      assert InsertAll(s, x, ps) == s1;
    }
  }

  /** Inserting one item any number of times and popping once yields it exactly once: the
      queue is then empty and a second `pop` is the `KeyError`. */
  lemma InsertRepeatedlyThenPop<T>(x: T, ps: seq<real>)
    requires |ps| > 0
    ensures var s := InsertAll(Empty(), x, ps);
      && PopSpec(s).1 == Some(x)
      && PopSpec(s).0.finder == map[]
      && PopSpec(s).0.size == 0
      && PopSpec(PopSpec(s).0).1 == None
  {
    var s := InsertAll(Empty(), x, ps);
    InsertAllCorrect(Empty(), x, ps);
    PopCorrect(s);
    PopCorrect(PopSpec(s).0);
  }

  /** `_remove_item` as the source writes it: the entry is marked REMOVED (through the list
      that `entry_finder` shares with the heap) and `size` drops, but the key stays in
      `entry_finder`. */
  function RemoveItemAsWritten<T>(s: QueueState<T>, x: T): Option<QueueState<T>> {
    if x !in s.finder then None
    else
      var e := s.finder[x];
      Some(QueueState(MarkRemoved(s.pq, e.count), s.finder[x := e.(slot := Removed)], s.counter, s.size - 1))
  }

  /** `insert` on top of RemoveItemAsWritten. */
  function InsertAsWritten<T>(s: QueueState<T>, x: T, p: real): QueueState<T> {
    var s1 := if x in s.finder then RemoveItemAsWritten(s, x).value else s;
    var e := Entry(p, s1.counter, Live(x));
    QueueState(s1.pq + [e], s1.finder[x := e], s1.counter + 1, s1.size + 1)
  }

  /** Through `insert` the left-over key is invisible: `insert` overwrites it at once. */
  lemma InsertAsWrittenAgrees<T>(s: QueueState<T>, x: T, p: real)
    ensures InsertAsWritten(s, x, p) == InsertSpec(s, x, p)
  {
    if x in s.finder {
      var e := Entry(p, s.counter, Live(x));
      MapRemoveThenSet(s.finder, x, e);
      MapSetTwice(s.finder, x, s.finder[x].(slot := Removed), e);
    }
  }

  /** A direct `_remove_item` as written leaves `test` true for the removed item, and a
      re-insert then drops `size` a second time: `len` is 0 while the item is live. */
  lemma RemoveItemAsWrittenMiscounts()
    ensures var s1 := InsertSpec(Empty<int>(), 7, 1.0);
      var s2 := RemoveItemAsWritten(s1, 7).value;
      var s3 := InsertAsWritten(s2, 7, 2.0);
      && TestSpec(s2, 7)
      && s3.size == 0
      && s3.finder[7] == Entry(2.0, 1, Live(7))
      && s3.pq[1] == Entry(2.0, 1, Live(7))
      && !Consistent(s3)
  {
    var s3 := InsertAsWritten(RemoveItemAsWritten(InsertSpec(Empty<int>(), 7, 1.0), 7).value, 7, 2.0);
    assert 7 in s3.finder;
    assert |s3.finder| != s3.size;
  }

  /** The queue object: the heap, `entry_finder`, the counter and `size` as fields. */
  class PriorityQueue<T(==)> {
    var pq: seq<Entry<T>>
    var entryFinder: map<T, Entry<T>>
    var counter: nat
    var size: int

    function State(): QueueState<T>
      reads this
    {
      QueueState(pq, entryFinder, counter, size)
    }

    ghost predicate Valid()
      reads this
    {
      Consistent(State())
    }

    constructor ()
      ensures Valid() && State() == Empty()
    {
      pq, entryFinder, counter, size := [], map[], 0, 0;
    }

    /** `__len__`: the number of live items. */
    function Len(): (n: int)
      reads this
      requires Valid()
      ensures n == |entryFinder|
    {
      size
    }

    /** `test`: whether the item has a live entry in the heap. */
    function Test(item: T): (b: bool)
      reads this
      requires Valid()
      ensures b <==> exists i :: 0 <= i < |pq| && pq[i].slot == Live(item)
    {
      item in entryFinder
    }

    /** `_remove_item`; `false` is the `KeyError`. */
    method RemoveItem(item: T) returns (found: bool)
      requires Valid()
      modifies this
      ensures Valid()
      ensures found == (item in old(entryFinder))
      ensures !found ==> State() == old(State())
      ensures found ==>
        && State() == RemoveItemSpec(old(State()), item).value
        && entryFinder == old(entryFinder) - {item}
        && size == old(size) - 1
    {
      if item !in entryFinder {
        return false;
      }
      ghost var s0 := State();
      var entry := entryFinder[item];
      pq, entryFinder, size := MarkRemoved(pq, entry.count), entryFinder - {item}, size - 1;
      assert State() == RemoveItemSpec(s0, item).value;
      RemoveItemCorrect(s0, item);
      found := true;
    }

    /** `insert`: the item's entry afterwards holds `priority` and the current count. */
    method Insert(item: T, priority: real)
      requires Valid()
      modifies this
      ensures Valid()
      ensures State() == InsertSpec(old(State()), item, priority)
      ensures entryFinder == old(entryFinder)[item := Entry(priority, old(counter), Live(item))]
      ensures size == if item in old(entryFinder) then old(size) else old(size) + 1
    {
      ghost var s0 := State();
      if item in entryFinder {
        var found := RemoveItem(item);
      }
      ghost var s1 := State();
      var entry := Entry(priority, counter, Live(item));
      pq, entryFinder, counter, size := pq + [entry], entryFinder[item := entry], counter + 1, size + 1;
      InsertSteps(s0, s1, item, priority);
      assert State() == InsertSpec(s0, item, priority);
      InsertCorrect(s0, item, priority);
    }

    /** `pop`: the live item with the least entry, or the `KeyError` (`None`). */
    method Pop() returns (r: Option<T>)
      requires Valid()
      modifies this
      ensures Valid()
      ensures (State(), r) == PopSpec(old(State()))
      ensures old(entryFinder) == map[] ==> r == None && pq == []
      ensures old(entryFinder) != map[] ==>
        && r.Some? && r.value in old(entryFinder)
        && entryFinder == old(entryFinder) - {r.value}
        && size == old(size) - 1
        && forall y :: y in old(entryFinder) ==> !Before(old(entryFinder)[y], old(entryFinder)[r.value])
    {
      ghost var s0 := State();
      while |pq| > 0
        invariant PopSpec(State()) == PopSpec(s0)
        decreases |pq|
      {
        var i := MinIndex(pq);
        var entry := pq[i];
        pq := RemoveAt(pq, i);
        if entry.slot.Live? {
          entryFinder, size := entryFinder - {entry.slot.item}, size - 1;
          r := Some(entry.slot.item);
          assert (State(), r) == PopSpec(s0);
          PopCorrect(s0);
          return;
        }
      }
      r := None;
      PopCorrect(s0);
    }
  }
}
