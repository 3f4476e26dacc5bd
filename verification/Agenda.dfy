/**
 Work scheduled for later: the runtime keys its events by machine cycle, the fault engine its
 faults by instruction count, and both break ties by order of scheduling.  Over any history
 each item is delivered once, at the first boundary that has reached its key, in key order.
 */
module Agenda {
  import opened Wrappers

  datatype Key = Key(due: nat, sequence: nat)

  predicate Before(a: Key, b: Key) {
    a.due < b.due || (a.due == b.due && a.sequence < b.sequence)
  }

  datatype Schedule<T> = Schedule(pending: map<Key, T>, next: nat)

  function Add<T>(s: Schedule<T>, due: nat, item: T): Schedule<T> {
    Schedule(s.pending[Key(due, s.next) := item], s.next + 1)
  }

  /** The keys that a boundary has reached. */
  function Due(keys: set<Key>, now: nat): set<Key> {
    set k | k in keys && k.due <= now
  }

  predicate Least(keys: set<Key>, k: Key) {
    k in keys && forall j :: j in keys ==> k == j || Before(k, j)
  }

  lemma HasLeast(keys: set<Key>)
    requires keys != {}
    ensures exists k :: Least(keys, k)
    decreases |keys|
  {
    var k :| k in keys;
    if keys == {k} {
      assert Least(keys, k);
    } else {
      HasLeast(keys - {k});
      var j :| Least(keys - {k}, j);
      assert forall i :: i in keys ==> i == k || i in keys - {k};
      assert Least(keys, if Before(j, k) then j else k);
    }
  }

  ghost function First(keys: set<Key>): (k: Key)
    requires keys != {}
    ensures Least(keys, k)
  {
    HasLeast(keys);
    var k :| Least(keys, k);
    k
  }

  /** The keys in order. */
  ghost function Sorted(keys: set<Key>): (r: seq<Key>)
    ensures forall k :: k in r <==> k in keys
    ensures forall i, j :: 0 <= i < j < |r| ==> Before(r[i], r[j])
    decreases |keys|
  {
    if keys == {} then []
    else
      var k := First(keys);
      [k] + Sorted(keys - {k})
  }

  /** Takes out the least key, as an ordered map gives it. */
  method TakeLeast(keys: set<Key>) returns (k: Key)
    requires keys != {}
    ensures Sorted(keys) == [k] + Sorted(keys - {k}) && k in keys
  {
    ghost var first := First(keys);
    k :| k in keys && forall j :: j in keys ==> k == j || Before(k, j);
    assert Least(keys, k);
    assert k == first;
  }

  /** Part of the due items have been taken out of the schedule. */
  ghost predicate Remaining<T>(pending: map<Key, T>, due: set<Key>, keys: set<Key>, events: map<Key, T>) {
    && keys <= due <= pending.Keys
    && (forall k :: k in events <==> k in pending && (k in keys || k !in due))
    && (forall k :: k in events ==> events[k] == pending[k])
  }

  lemma AllRemain<T>(pending: map<Key, T>, due: set<Key>)
    requires due <= pending.Keys
    ensures Remaining(pending, due, due, pending)
  {
  }

  lemma OneFewer<T>(pending: map<Key, T>, due: set<Key>, keys: set<Key>, events: map<Key, T>, k: Key)
    requires Remaining(pending, due, keys, events) && k in keys
    ensures k in events && k in pending && events[k] == pending[k]
    ensures Remaining(pending, due, keys - {k}, events - {k})
  {
  }

  lemma NoneRemain<T>(pending: map<Key, T>, due: set<Key>, events: map<Key, T>)
    requires Remaining(pending, due, {}, events)
    ensures events == pending - due
  {
  }

  // ----- histories -----

  /** What happens to a schedule: an item is added, or a boundary delivers what is due. */
  datatype Happening<T> = Added(due: nat, item: T) | Boundary(now: nat)

  datatype Delivery<T> = Delivery(key: Key, item: T, boundary: nat)

  datatype Story<T> = Story(schedule: Schedule<T>, log: seq<Delivery<T>>)

  ghost function Deliveries<T>(pending: map<Key, T>, keys: seq<Key>, boundary: nat): seq<Delivery<T>>
    requires forall k :: k in keys ==> k in pending
  {
    seq(|keys|, i requires 0 <= i < |keys| =>
      assert keys[i] in keys; Delivery(keys[i], pending[keys[i]], boundary))
  }

  ghost function Deliver<T>(s: Story<T>, now: nat, boundary: nat): Story<T> {
    var due := Due(s.schedule.pending.Keys, now);
    Story(s.schedule.(pending := s.schedule.pending - due),
          s.log + Deliveries(s.schedule.pending, Sorted(due), boundary))
  }

  ghost function Replay<T>(history: seq<Happening<T>>, n: nat): Story<T>
    requires n <= |history|
  {
    if n == 0 then Story(Schedule(map[], 0), [])
    else
      var s := Replay(history, n - 1);
      match history[n - 1]
      case Added(due, item) => s.(schedule := Add(s.schedule, due, item))
      case Boundary(now) => Deliver(s, now, n - 1)
  }

  lemma DeliverTakes<T>(s: Story<T>, now: nat, n: nat)
    ensures Deliver(s, now, n).schedule ==
            Schedule(s.schedule.pending - Due(s.schedule.pending.Keys, now), s.schedule.next)
  {
  }

  /** One more happening continues the story. */
  lemma ReplayExtended<T>(history: seq<Happening<T>>, h: Happening<T>)
    ensures Replay(history + [h], |history| + 1) ==
            match h
            case Added(due, item) =>
              Replay(history, |history|).(schedule := Add(Replay(history, |history|).schedule, due, item))
            case Boundary(now) => Deliver(Replay(history, |history|), now, |history|)
  {
    SamePast(history, h, |history|);
  }

  lemma {:induction false} SamePast<T>(history: seq<Happening<T>>, h: Happening<T>, n: nat)
    requires n <= |history|
    ensures Replay(history + [h], n) == Replay(history, n)
    decreases n
  {
    hide Deliver, Add;
    if n > 0 {
      SamePast(history, h, n - 1);
      assert (history + [h])[n - 1] == history[n - 1];
    }
  }

  // ----- what a history delivers -----

  /** Number of items added before a point; the sequence number of the next. */
  function Number<T>(history: seq<Happening<T>>, n: nat): nat
    requires n <= |history|
  {
    if n == 0 then 0 else Number(history, n - 1) + if history[n - 1].Added? then 1 else 0
  }

  function KeyOf<T>(history: seq<Happening<T>>, i: nat): Key
    requires i < |history| && history[i].Added?
  {
    Key(history[i].due, Number(history, i))
  }

  /** The first boundary after an item was added, and before a point, that has reached it. */
  function FirstReached<T>(history: seq<Happening<T>>, i: nat, n: nat): (b: Option<nat>)
    requires i < n <= |history| && history[i].Added?
    ensures b.Some? ==>
              && i < b.value < n && history[b.value].Boundary? && history[i].due <= history[b.value].now
              && forall j :: i < j < b.value && history[j].Boundary? ==> history[j].now < history[i].due
    ensures b.None? ==> forall j :: i < j < n && history[j].Boundary? ==> history[j].now < history[i].due
    decreases n
  {
    if n == i + 1 then None
    else
      var b := FirstReached(history, i, n - 1);
      if b.Some? then b
      else if history[n - 1].Boundary? && history[i].due <= history[n - 1].now then Some(n - 1)
      else None
  }

  lemma {:induction false} NumbersGrow<T>(history: seq<Happening<T>>, i: nat, j: nat)
    requires i <= j <= |history|
    ensures Number(history, i) <= Number(history, j)
    ensures i < j && history[i].Added? ==> Number(history, i) < Number(history, j)
    decreases j
  {
    if i < j {
      NumbersGrow(history, i, j - 1);
    }
  }

  /** The item at a place in the history is what a key stands for. */
  predicate Is<T>(history: seq<Happening<T>>, i: nat, k: Key) {
    i < |history| && history[i].Added? && KeyOf(history, i) == k
  }

  lemma KeysAreUnique<T>(history: seq<Happening<T>>, i: nat, j: nat, k: Key)
    requires Is(history, i, k) && Is(history, j, k)
    ensures i == j
  {
    if i < j {
      NumbersGrow(history, i, j);
    } else if j < i {
      NumbersGrow(history, j, i);
    }
  }

  /** Pending are exactly the items no boundary has reached. */
  ghost predicate PendingExactly<T>(history: seq<Happening<T>>, n: nat, pending: map<Key, T>)
    requires n <= |history|
  {
    && (forall k :: k in pending ==>
          exists i: nat :: i < n && Is(history, i, k) && history[i].item == pending[k]
                           && FirstReached(history, i, n) == None)
    && (forall i: nat, k :: i < n && Is(history, i, k) && FirstReached(history, i, n) == None ==> k in pending)
  }

  /** Delivered are exactly the items some boundary has reached, each there. */
  ghost predicate DeliveredExactly<T>(history: seq<Happening<T>>, n: nat, log: seq<Delivery<T>>)
    requires n <= |history|
  {
    && (forall d :: d in log ==>
          exists i: nat :: i < n && Is(history, i, d.key) && history[i].item == d.item
                           && FirstReached(history, i, n) == Some(d.boundary))
    && (forall i: nat, k :: i < n && Is(history, i, k) && FirstReached(history, i, n).Some? ==>
          Delivery(k, history[i].item, FirstReached(history, i, n).value) in log)
  }

  predicate Earlier<T>(a: Delivery<T>, b: Delivery<T>) {
    a.boundary < b.boundary || (a.boundary == b.boundary && Before(a.key, b.key))
  }

  /** Deliveries come by boundary and, within one, by key. */
  ghost predicate InOrder<T>(log: seq<Delivery<T>>, n: nat) {
    && (forall x, y :: 0 <= x < y < |log| ==> Earlier(log[x], log[y]))
    && (forall d :: d in log ==> d.boundary < n)
  }

  ghost predicate Tells<T>(history: seq<Happening<T>>, n: nat, s: Story<T>)
    requires n <= |history|
  {
    && s.schedule.next == Number(history, n)
    && PendingExactly(history, n, s.schedule.pending)
    && DeliveredExactly(history, n, s.log)
    && InOrder(s.log, n)
  }

  lemma AddTells<T>(history: seq<Happening<T>>, n: nat, s: Story<T>)
    requires n < |history| && history[n].Added? && Tells(history, n, s)
    ensures Tells(history, n + 1, s.(schedule := Add(s.schedule, history[n].due, history[n].item)))
  {
    hide Earlier, Number;
    var key := KeyOf(history, n);
    var t := s.(schedule := Add(s.schedule, history[n].due, history[n].item));
    assert t.schedule.next == Number(history, n + 1) by {
      NumberOfNext(history, n);
    }
    assert Is(history, n, key) && FirstReached(history, n, n + 1) == None;
    Unmoved(history, n);
    if exists i: nat :: i < n && Is(history, i, key) {
      var i: nat :| i < n && Is(history, i, key);
      KeysAreUnique(history, i, n, key);
    }
  }

  lemma NumberOfNext<T>(history: seq<Happening<T>>, n: nat)
    requires n < |history|
    ensures Number(history, n + 1) == Number(history, n) + if history[n].Added? then 1 else 0
  {
  }

  /** Adding an item moves nothing else. */
  lemma Unmoved<T>(history: seq<Happening<T>>, n: nat)
    requires n < |history| && history[n].Added?
    ensures forall i: nat, k :: i < n && Is(history, i, k) ==>
              FirstReached(history, i, n + 1) == FirstReached(history, i, n)
  {
  }

  /** A boundary reaches exactly the pending items that are due. */
  lemma Reached<T>(history: seq<Happening<T>>, n: nat, i: nat)
    requires i < n < |history| && history[n].Boundary? && history[i].Added?
    ensures FirstReached(history, i, n + 1) ==
            if FirstReached(history, i, n).Some? then FirstReached(history, i, n)
            else if history[i].due <= history[n].now then Some(n)
            else None
  {
  }

  lemma BoundaryPending<T>(history: seq<Happening<T>>, n: nat, s: Story<T>)
    requires n < |history| && history[n].Boundary? && Tells(history, n, s)
    ensures PendingExactly(history, n + 1, Deliver(s, history[n].now, n).schedule.pending)
  {
    hide Number, FirstReached, DeliveredExactly, InOrder, Sorted;
    var t := Deliver(s, history[n].now, n);
    forall k | k in t.schedule.pending
      ensures exists i: nat :: i < n + 1 && Is(history, i, k) && history[i].item == t.schedule.pending[k]
                               && FirstReached(history, i, n + 1) == None
    {
      var i: nat :| i < n && Is(history, i, k) && history[i].item == s.schedule.pending[k]
                    && FirstReached(history, i, n) == None;
      Reached(history, n, i);
      assert i < n + 1;
    }
    forall i: nat, k | i < n + 1 && Is(history, i, k) && FirstReached(history, i, n + 1) == None
      ensures k in t.schedule.pending
    {
      Reached(history, n, i);
    }
  }

  lemma BoundaryDelivered<T>(history: seq<Happening<T>>, n: nat, s: Story<T>)
    requires n < |history| && history[n].Boundary? && Tells(history, n, s)
    ensures DeliveredExactly(history, n + 1, Deliver(s, history[n].now, n).log)
  {
    hide Number, FirstReached, InOrder;
    var due := Due(s.schedule.pending.Keys, history[n].now);
    var keys := Sorted(due);
    var more := Deliveries(s.schedule.pending, keys, n);
    var log := Deliver(s, history[n].now, n).log;
    assert log == s.log + more;
    forall d | d in log
      ensures exists i: nat :: i < n + 1 && Is(history, i, d.key) && history[i].item == d.item
                               && FirstReached(history, i, n + 1) == Some(d.boundary)
    {
      if d in s.log {
        var i: nat :| i < n && Is(history, i, d.key) && history[i].item == d.item
                      && FirstReached(history, i, n) == Some(d.boundary);
        Reached(history, n, i);
        assert i < n + 1;
      } else {
        var x :| 0 <= x < |more| && more[x] == d;
        assert keys[x] in keys;
        var i: nat :| i < n && Is(history, i, d.key) && history[i].item == d.item
                      && FirstReached(history, i, n) == None;
        Reached(history, n, i);
        assert i < n + 1;
      }
    }
    forall i: nat, k | i < n + 1 && Is(history, i, k) && FirstReached(history, i, n + 1).Some?
      ensures Delivery(k, history[i].item, FirstReached(history, i, n + 1).value) in log
    {
      Reached(history, n, i);
      if FirstReached(history, i, n) == None {
        assert k in due;
        var j: nat :| j < n && Is(history, j, k) && history[j].item == s.schedule.pending[k];
        KeysAreUnique(history, i, j, k);
        var x :| 0 <= x < |keys| && keys[x] == k;
        assert more[x] == Delivery(k, history[i].item, n);
        assert more[x] in log;
      } else {
        assert Delivery(k, history[i].item, FirstReached(history, i, n).value) in s.log;
      }
    }
  }

  lemma BoundaryOrdered<T>(s: Story<T>, now: nat, n: nat)
    requires InOrder(s.log, n)
    ensures InOrder(Deliver(s, now, n).log, n + 1)
  {
    var keys := Sorted(Due(s.schedule.pending.Keys, now));
    var more := Deliveries(s.schedule.pending, keys, n);
    var log := Deliver(s, now, n).log;
    assert log == s.log + more;
    forall x, y | 0 <= x < y < |log|
      ensures Earlier(log[x], log[y])
    {
      if y < |s.log| {
        assert log[x] == s.log[x] && log[y] == s.log[y];
      } else {
        assert log[y].boundary == n;
        if x < |s.log| {
          assert log[x] in s.log;
        } else {
          assert Before(keys[x - |s.log|], keys[y - |s.log|]);
        }
      }
    }
  }

  lemma {:induction false} ReplayTells<T>(history: seq<Happening<T>>, n: nat)
    requires n <= |history|
    ensures Tells(history, n, Replay(history, n))
    decreases n
  {
    hide PendingExactly, DeliveredExactly, InOrder, FirstReached, Number, Deliver, Add;
    if n == 0 {
      NothingTells(history);
    } else {
      ReplayTells(history, n - 1);
      var s := Replay(history, n - 1);
      if history[n - 1].Added? {
        AddTells(history, n - 1, s);
      } else {
        BoundaryPending(history, n - 1, s);
        BoundaryDelivered(history, n - 1, s);
        BoundaryOrdered(s, history[n - 1].now, n - 1);
        NumberOfNext(history, n - 1);
        DeliverKeepsNumber(s, history[n - 1].now, n - 1);
      }
    }
  }

  lemma DeliverKeepsNumber<T>(s: Story<T>, now: nat, n: nat)
    ensures Deliver(s, now, n).schedule.next == s.schedule.next
  {
  }

  lemma NothingTells<T>(history: seq<Happening<T>>)
    ensures Tells(history, 0, Story(Schedule(map[], 0), []))
  {
  }

  lemma NoneTwice<T>(log: seq<Delivery<T>>, n: nat)
    requires InOrder(log, n)
    ensures forall x, y :: 0 <= x < y < |log| ==> log[x].key != log[y].key || log[x].boundary != log[y].boundary
  {
    forall x, y | 0 <= x < y < |log|
      ensures log[x].key != log[y].key || log[x].boundary != log[y].boundary
    {
      assert Earlier(log[x], log[y]);
    }
  }

  /** An item can only have been delivered at the first boundary that reached it. */
  lemma DeliveredWhenReached<T>(history: seq<Happening<T>>, log: seq<Delivery<T>>, i: nat)
    requires DeliveredExactly(history, |history|, log) && i < |history| && history[i].Added?
    ensures forall x :: 0 <= x < |log| && log[x].key == KeyOf(history, i) ==>
              FirstReached(history, i, |history|) == Some(log[x].boundary)
  {
    hide FirstReached, KeyOf;
    var n, k := |history|, KeyOf(history, i);
    forall x | 0 <= x < |log| && log[x].key == k
      ensures FirstReached(history, i, n) == Some(log[x].boundary)
    {
      assert log[x] in log;
      var j: nat :| j < n && Is(history, j, k) && FirstReached(history, j, n) == Some(log[x].boundary);
      KeysAreUnique(history, i, j, k);
    }
  }

  /** Every item that was ever scheduled is either still pending, if no boundary since has
      reached it, or has been delivered exactly once, at the first boundary that did. */
  lemma ExactlyOnce<T>(history: seq<Happening<T>>, i: nat)
    requires i < |history| && history[i].Added?
    ensures var s, k := Replay(history, |history|), KeyOf(history, i);
            match FirstReached(history, i, |history|)
            case None =>
              && k in s.schedule.pending && s.schedule.pending[k] == history[i].item
              && forall x :: 0 <= x < |s.log| ==> s.log[x].key != k
            case Some(b) =>
              && k !in s.schedule.pending
              && exists x :: 0 <= x < |s.log| && s.log[x] == Delivery(k, history[i].item, b)
                   && forall y :: 0 <= y < |s.log| && s.log[y].key == k ==> y == x
  {
    hide FirstReached, Number, Replay, KeyOf;
    var n := |history|;
    ReplayTells(history, n);
    var s, k := Replay(history, n), KeyOf(history, i);
    assert Is(history, i, k);
    DeliveredWhenReached(history, s.log, i);
    if k in s.schedule.pending {
      var j: nat :| j < n && Is(history, j, k) && history[j].item == s.schedule.pending[k]
                    && FirstReached(history, j, n) == None;
      KeysAreUnique(history, i, j, k);
    }
    if FirstReached(history, i, n).Some? {
      var x :| 0 <= x < |s.log| && s.log[x] == Delivery(k, history[i].item, FirstReached(history, i, n).value);
      NoneTwice(s.log, n);
    }
  }

  /** A delivery is of an item that was scheduled, under its key. */
  ghost predicate Scheduled<T>(history: seq<Happening<T>>, d: Delivery<T>) {
    exists i: nat :: Is(history, i, d.key) && history[i].item == d.item
  }

  /** Deliveries are in order of boundary and, within a boundary, of key; only scheduled
      items are delivered. */
  lemma DeliveriesInOrder<T>(history: seq<Happening<T>>)
    ensures var log := Replay(history, |history|).log;
            && (forall x, y :: 0 <= x < y < |log| ==> Earlier(log[x], log[y]))
            && forall x :: 0 <= x < |log| ==> Scheduled(history, log[x])
  {
    hide FirstReached, Number, Replay, PendingExactly, KeyOf;
    ReplayTells(history, |history|);
    var log := Replay(history, |history|).log;
    forall x | 0 <= x < |log|
      ensures Scheduled(history, log[x])
    {
      assert log[x] in log;
    }
  }
}
