/**
 * AlarmManager: the queue of pending alarms, a TreeSet ordered by AlarmEntry.compareTo, and the
 * operations that add, remove, list and ring them.
 *
 * The queue is a sequence of entries in strictly ascending compareTo order; the waiter thread
 * is reduced to the calls the manager makes on it (a ghost log) and to whether it is still
 * there (removeAllAlarmsAndStop sets it to null).
 */
module AlarmManagers {
  import opened Wrappers
  import opened AlarmUtils
  import opened EntryRules
  import opened Alarms

  /** A call on the waiter thread. */
  datatype WaiterCall = Update(time: int) | Restart(time: int) | Stop

  // ---------------------------------------------------------------- the queue as a sequence

  /** The order a TreeSet keeps: every entry's key strictly before every later one's. */
  predicate InOrder(q: seq<AlarmEntry>)
    reads q
  {
    forall i, j :: 0 <= i < j < |q| ==> KeyBefore(q[i].Key(), q[j].Key())
  }

  /** TreeSet.contains: an element compares equal (compareTo answers 0) to the key. */
  predicate HasKey(q: seq<AlarmEntry>, k: EntryKey)
    reads q
  {
    exists i :: 0 <= i < |q| && q[i].Key() == k
  }

  /**
   * TreeSet.add: the entry goes before the first element it compares below; nothing is added
   * when an element compares equal to it.
   */
  function AddedTo(q: seq<AlarmEntry>, e: AlarmEntry): seq<AlarmEntry>
    reads q, e
  {
    if |q| == 0 then [e]
    else if KeyBefore(e.Key(), q[0].Key()) then [e] + q
    else if e.Key() == q[0].Key() then q
    else [q[0]] + AddedTo(q[1..], e)
  }

  /** TreeSet.remove: the element that compares equal to the key, if any, is taken out. */
  function Removed(q: seq<AlarmEntry>, k: EntryKey): seq<AlarmEntry>
    reads q
  {
    if |q| == 0 then []
    else if q[0].Key() == k then q[1..]
    else [q[0]] + Removed(q[1..], k)
  }

  /** The rest of an ascending queue is ascending and lies after its first element. */
  lemma InOrderTail(q: seq<AlarmEntry>)
    requires InOrder(q) && 0 < |q|
    ensures InOrder(q[1..])
    ensures forall x: AlarmEntry :: x in q[1..] ==> KeyBefore(q[0].Key(), x.Key())
    ensures q[0] !in q[1..]
  {
    forall x: AlarmEntry | x in q[1..]
      ensures KeyBefore(q[0].Key(), x.Key())
    {
      var j :| 0 < j < |q| && q[j] == x;
    }
  }

  /** An entry whose key is before every key of an ascending queue can go in front of it. */
  lemma InOrderCons(x: AlarmEntry, q: seq<AlarmEntry>)
    requires InOrder(q)
    requires forall y: AlarmEntry :: y in q ==> KeyBefore(x.Key(), y.Key())
    ensures InOrder([x] + q)
  {
    var xq := [x] + q;
    forall i, j | 0 <= i < j < |xq|
      ensures KeyBefore(xq[i].Key(), xq[j].Key())
    {
      assert xq[j] == q[j - 1];
      if i > 0 {
        assert xq[i] == q[i - 1];
      }
    }
  }

  /** An entry whose key is below the first of an ascending queue goes in front of it, and no element has its key. */
  lemma InFront(q: seq<AlarmEntry>, e: AlarmEntry)
    requires InOrder(q) && 0 < |q| && KeyBefore(e.Key(), q[0].Key())
    ensures InOrder([e] + q) && !HasKey(q, e.Key())
  {
    InOrderTail(q);
    forall y: AlarmEntry | y in q
      ensures KeyBefore(e.Key(), y.Key())
    {
      if y != q[0] {
        CompareKeysTransitive(e.Key(), q[0].Key(), y.Key());
      }
    }
    InOrderCons(e, q);
  }

  /** A key is in a sequence with a first element when it is the first's key or in the rest. */
  lemma HasKeyCons(x: AlarmEntry, q: seq<AlarmEntry>, k: EntryKey)
    ensures HasKey([x] + q, k) <==> x.Key() == k || HasKey(q, k)
  {
    var xq := [x] + q;
    assert xq[0] == x;
    if HasKey(xq, k) && x.Key() != k {
      var j :| 0 <= j < |xq| && xq[j].Key() == k;
      assert q[j - 1] == xq[j];
    }
    if HasKey(q, k) {
      var j :| 0 <= j < |q| && q[j].Key() == k;
      assert xq[j + 1] == q[j];
    }
  }

  /**
   * Adding to an ascending queue keeps it ascending; afterwards the queue holds exactly the
   * old entries and, unless an element already compared equal to it, the new one; either
   * way an element compares equal to the new entry.
   */
  lemma {:induction false} AddedToInOrder(q: seq<AlarmEntry>, e: AlarmEntry)
    requires InOrder(q)
    decreases |q|, 0
    ensures InOrder(AddedTo(q, e))
    ensures forall x: AlarmEntry :: x in AddedTo(q, e) <==> x in q || (x == e && !HasKey(q, e.Key()))
    ensures HasKey(AddedTo(q, e), e.Key())
  {
    if |q| == 0 {
      assert AddedTo(q, e)[0] == e;
    } else if KeyBefore(e.Key(), q[0].Key()) {
      InFront(q, e);
      assert AddedTo(q, e)[0] == e;
    } else if e.Key() == q[0].Key() {
      assert q[0].Key() == e.Key();
    } else {
      var rest := q[1..];
      assert q == [q[0]] + rest;
      InOrderTail(q);
      AddedToInOrder(rest, e);
      assert KeyBefore(q[0].Key(), e.Key()) by {
        CompareKeysAntisymmetric(e.Key(), q[0].Key());
      }
      AddedToStaysAfter(rest, e, q[0]);
      InOrderCons(q[0], AddedTo(rest, e));
      HasKeyCons(q[0], AddedTo(rest, e), e.Key());
      HasKeyCons(q[0], rest, e.Key());
    }
  }

  /** An entry before every element of a queue and before the added one is before all of the result. */
  lemma AddedToStaysAfter(q: seq<AlarmEntry>, e: AlarmEntry, p: AlarmEntry)
    requires InOrder(q)
    requires KeyBefore(p.Key(), e.Key()) && forall y: AlarmEntry :: y in q ==> KeyBefore(p.Key(), y.Key())
    ensures forall y: AlarmEntry :: y in AddedTo(q, e) ==> KeyBefore(p.Key(), y.Key())
    decreases |q|, 1
  {
    AddedToInOrder(q, e);
  }

  /** The first element after an addition: the new entry exactly when it compares below the old first. */
  lemma AddedToFirst(q: seq<AlarmEntry>, e: AlarmEntry)
    ensures 0 < |AddedTo(q, e)|
    ensures AddedTo(q, e)[0] == (if |q| == 0 || KeyBefore(e.Key(), q[0].Key()) then e else q[0])
  {
  }

  /**
   * Removing from an ascending queue keeps it ascending and takes out exactly the element
   * that compares equal to the key, so that the queue shrinks by one exactly when it held it.
   */
  lemma {:induction false} RemovedInOrder(q: seq<AlarmEntry>, k: EntryKey)
    requires InOrder(q)
    decreases |q|, 0
    ensures InOrder(Removed(q, k))
    ensures forall x: AlarmEntry :: x in Removed(q, k) <==> x in q && x.Key() != k
    ensures |Removed(q, k)| == if HasKey(q, k) then |q| - 1 else |q|
  {
    if |q| == 0 {
    } else {
      var rest := q[1..];
      assert q == [q[0]] + rest;
      InOrderTail(q);
      if q[0].Key() == k {
        assert q[0].Key() == k;
        forall x: AlarmEntry | x in rest
          ensures x.Key() != k
        {
          assert KeyBefore(k, x.Key());
        }
      } else {
        RemovedInOrder(rest, k);
        RemovedStaysAfter(rest, k, q[0]);
        InOrderCons(q[0], Removed(rest, k));
        HasKeyCons(q[0], rest, k);
      }
    }
  }

  /** An entry before every element of a queue is before every element left after a removal. */
  lemma RemovedStaysAfter(q: seq<AlarmEntry>, k: EntryKey, p: AlarmEntry)
    requires InOrder(q)
    requires forall y: AlarmEntry :: y in q ==> KeyBefore(p.Key(), y.Key())
    ensures forall y: AlarmEntry :: y in Removed(q, k) ==> KeyBefore(p.Key(), y.Key())
    decreases |q|, 1
  {
    RemovedInOrder(q, k);
  }

  /** Removing the first element's key from an ascending queue leaves the rest. */
  lemma RemovedFirst(q: seq<AlarmEntry>)
    requires InOrder(q) && 0 < |q|
    ensures Removed(q, q[0].Key()) == q[1..]
  {
  }

  // ---------------------------------------------------------------- rounds of ringNextAlarm

  /**
   * One round of ringNextAlarm, as a value: the entry rung, its key (alarm time, last update
   * time, UUID, name) when the round began and when it ended, and the clock reading it used.
   */
  datatype Ring = Ring(entry: AlarmEntry, before: EntryKey, after: EntryKey, now: int)

  /** updateAlarmTime() answers true: a repeating entry whose next alarm is positive. */
  predicate RingsAgain(g: Ring)
  {
    var next := g.entry.nextAlarmOf(g.before.alarmTime, g.now);
    g.entry.isRepeating && next.Success? && 0 < next.value
  }

  /** updateAlarmTime() throws: a repeating entry whose nextAlarm fails. */
  predicate RingFails(g: Ring)
  {
    g.entry.isRepeating && g.entry.nextAlarmOf(g.before.alarmTime, g.now).Failure?
  }

  /**
   * TreeSet.add on keys held in a map rather than in the entries' fields: the steps of
   * AddedTo, for an entry whose key in `keys` is the one it is added with.
   */
  function AddedBy(q: seq<AlarmEntry>, e: AlarmEntry, keys: map<AlarmEntry, EntryKey>): seq<AlarmEntry>
    requires e in keys && forall x :: x in q ==> x in keys
  {
    if |q| == 0 then [e]
    else if KeyBefore(keys[e], keys[q[0]]) then [e] + q
    else if keys[e] == keys[q[0]] then q
    else [q[0]] + AddedBy(q[1..], e, keys)
  }

  /** On a key map that holds the entries' own keys, AddedBy is TreeSet.add. */
  lemma {:induction false} AddedToIsAddedBy(q: seq<AlarmEntry>, e: AlarmEntry, keys: map<AlarmEntry, EntryKey>)
    requires e in keys && keys[e] == e.Key()
    requires forall x :: x in q ==> x in keys && keys[x] == x.Key()
    ensures AddedBy(q, e, keys) == AddedTo(q, e)
    decreases |q|
  {
    if 0 < |q| {
      assert q[0] in q;
      AddedToIsAddedBy(q[1..], e, keys);
    }
  }

  /**
   * TreeSet.add keeps every entry of the queue and adds no other than the new one, which it
   * adds whenever no element has its key.
   */
  lemma {:induction false} AddedByKeeps(q: seq<AlarmEntry>, e: AlarmEntry, keys: map<AlarmEntry, EntryKey>)
    requires e in keys && forall x :: x in q ==> x in keys
    ensures forall x :: x in q ==> x in AddedBy(q, e, keys)
    ensures forall x :: x in AddedBy(q, e, keys) ==> x in q || x == e
    ensures (forall y :: y in q ==> keys[y] != keys[e]) ==> e in AddedBy(q, e, keys)
    decreases |q|
  {
    if 0 < |q| {
      assert q == [q[0]] + q[1..];
      AddedByKeeps(q[1..], e, keys);
    }
  }

  /** InOrder on the keys of a key map: every entry's key strictly before every later one's. */
  ghost predicate OrderedBy(q: seq<AlarmEntry>, keys: map<AlarmEntry, EntryKey>)
  {
    (forall x :: x in q ==> x in keys) &&
    forall i, j :: 0 <= i < j < |q| ==> KeyBefore(keys[q[i]], keys[q[j]])
  }

  /** A queue in compareTo order is ordered on any key map that holds the entries' keys. */
  lemma InOrderOrderedBy(q: seq<AlarmEntry>, keys: map<AlarmEntry, EntryKey>)
    requires InOrder(q) && forall x :: x in q ==> x in keys && keys[x] == x.Key()
    ensures OrderedBy(q, keys)
  {
  }

  /**
   * One round takes queue `q`, whose entries have the keys `keys`, to queue `q2`: the first
   * entry is rung and removed; when updateAlarmTime() answers true its alarm time moves to
   * the next alarm and its last update time to the reading, and TreeSet.add puts it back
   * with that key; otherwise its key stays and it stays out.
   */
  predicate RoundStep(q: seq<AlarmEntry>, g: Ring, keys: map<AlarmEntry, EntryKey>, q2: seq<AlarmEntry>)
  {
    0 < |q| && q[0] == g.entry && (forall x :: x in q ==> x in keys) &&
    if RingsAgain(g) then
      g.after == g.before.(alarmTime := g.entry.nextAlarmOf(g.before.alarmTime, g.now).value, lastUpdateTime := g.now) &&
      q2 == AddedBy(q[1..], g.entry, keys[g.entry := g.after])
    else
      g.after == g.before && q2 == q[1..]
  }

  /**
   * The key of `x` when round `i` begins, given its key `k0` before the first round: the key
   * the last earlier round that rang it left, or `k0` when none did.
   */
  ghost function KeyAt(rings: seq<Ring>, i: nat, x: AlarmEntry, k0: EntryKey): EntryKey
    requires i <= |rings|
  {
    if i == 0 then k0
    else if rings[i - 1].entry == x then rings[i - 1].after
    else KeyAt(rings, i - 1, x, k0)
  }

  /** The keys when round `i` begins, from the keys `keys` before the first round. */
  ghost function KeysAt(rings: seq<Ring>, i: nat, keys: map<AlarmEntry, EntryKey>): (m: map<AlarmEntry, EntryKey>)
    requires i <= |rings|
    ensures m.Keys == keys.Keys && forall x :: x in keys ==> m[x] == KeyAt(rings, i, x, keys[x])
  {
    map x | x in keys :: KeyAt(rings, i, x, keys[x])
  }

  /** KeyAt over a run with one more round in front starts from the key that round left. */
  lemma {:induction false} KeyAtCons(g: Ring, rings: seq<Ring>, i: nat, x: AlarmEntry, k0: EntryKey)
    requires i <= |rings|
    ensures KeyAt([g] + rings, i + 1, x, k0) == KeyAt(rings, i, x, if g.entry == x then g.after else k0)
  {
    if i > 0 {
      assert ([g] + rings)[i] == rings[i - 1];
      KeyAtCons(g, rings, i - 1, x, k0);
    }
  }

  /** The keys over a run with one more round in front start from the keys that round left. */
  lemma KeysAtCons(g: Ring, rings: seq<Ring>, i: nat, keys: map<AlarmEntry, EntryKey>)
    requires i <= |rings| && g.entry in keys
    ensures KeysAt([g] + rings, i + 1, keys) == KeysAt(rings, i, keys[g.entry := g.after])
  {
    forall x | x in keys
      ensures KeysAt([g] + rings, i + 1, keys)[x] == KeysAt(rings, i, keys[g.entry := g.after])[x]
    {
      KeyAtCons(g, rings, i, x, keys[x]);
    }
  }

  /**
   * A run of rounds on successive clock readings from the keys `keys`: round i uses reading i
   * and takes queues[i] to queues[i + 1] on the keys of that moment, each queue being in
   * compareTo order on them; every round but the last rang without an exception and left a
   * first entry less than MinimumDelay ahead of its reading, which is why the next round came.
   */
  ghost predicate Run(queues: seq<seq<AlarmEntry>>, rings: seq<Ring>, clock: seq<int>, keys: map<AlarmEntry, EntryKey>)
  {
    |queues| == |rings| + 1 && |rings| <= |clock| &&
    (forall i :: 0 <= i <= |rings| ==> OrderedBy(queues[i], KeysAt(rings, i, keys))) &&
    (forall i :: 0 <= i < |rings| ==>
      rings[i].now == clock[i] && RoundStep(queues[i], rings[i], KeysAt(rings, i, keys), queues[i + 1])) &&
    (forall i :: 0 <= i < |rings| - 1 ==> !RingFails(rings[i]) && rings[i + 1].before.alarmTime - rings[i].now < MinimumDelay)
  }

  /** The entries a run of rounds rang, in order. */
  function Entries(rings: seq<Ring>): (es: seq<AlarmEntry>)
    ensures |es| == |rings| && forall i :: 0 <= i < |rings| ==> es[i] == rings[i].entry
  {
    if rings == [] then [] else [rings[0].entry] + Entries(rings[1..])
  }

  /** The keys of a set of entries. */
  ghost function Keys(s: set<AlarmEntry>): (m: map<AlarmEntry, EntryKey>)
    reads s
    ensures m.Keys == s && forall x :: x in s ==> m[x] == x.Key()
  {
    map x | x in s :: x.Key()
  }

  /**
   * Each round began from the key its entry had then: the one in `keys` before the first
   * round, or the one an earlier round left.
   */
  ghost predicate Chained(rings: seq<Ring>, keys: map<AlarmEntry, EntryKey>)
  {
    forall i :: 0 <= i < |rings| ==>
      rings[i].entry in keys && rings[i].before == KeyAt(rings, i, rings[i].entry, keys[rings[i].entry])
  }

  /** The keys after a run of rounds, from those before it. */
  ghost function Advanced(rings: seq<Ring>, keys: map<AlarmEntry, EntryKey>): (m: map<AlarmEntry, EntryKey>)
    ensures m.Keys == keys.Keys
  {
    KeysAt(rings, |rings|, keys)
  }

  /** No rounds change no key. */
  lemma AdvancedNone(keys: map<AlarmEntry, EntryKey>)
    ensures Advanced([], keys) == keys
  {
  }

  /**
   * An entry that no round from round `i` on rang keeps the key it had when round `i` began:
   * alarm time, last update time and name.
   */
  lemma {:induction false} AdvancedUnrung(rings: seq<Ring>, keys: map<AlarmEntry, EntryKey>, x: AlarmEntry, i: nat)
    requires x in keys && i <= |rings| && x !in Entries(rings)[i..]
    ensures Advanced(rings, keys)[x] == KeysAt(rings, i, keys)[x]
  {
    var j := |rings|;
    while j > i
      invariant i <= j <= |rings|
      invariant KeyAt(rings, |rings|, x, keys[x]) == KeyAt(rings, j, x, keys[x])
    {
      assert rings[j - 1].entry == Entries(rings)[i..][j - 1 - i];
      j := j - 1;
    }
  }

  /** The first round of a run rings the first entry of the queue it began with. */
  lemma RunFirst(queues: seq<seq<AlarmEntry>>, rings: seq<Ring>, clock: seq<int>, keys: map<AlarmEntry, EntryKey>)
    requires Run(queues, rings, clock, keys) && 0 < |rings|
    ensures 0 < |queues[0]| && rings[0].entry == queues[0][0] && rings[0].now == clock[0]
  {
    assert RoundStep(queues[0], rings[0], KeysAt(rings, 0, keys), queues[1]);
  }

  /** The first round of a chained run begins from its entry's key before the run. */
  lemma ChainedFirst(rings: seq<Ring>, keys: map<AlarmEntry, EntryKey>)
    requires Chained(rings, keys) && 0 < |rings|
    ensures rings[0].entry in keys && rings[0].before == keys[rings[0].entry]
  {
  }

  /** A round in front of a run, on the keys before it, makes a longer run. */
  lemma RunCons(q: seq<AlarmEntry>, g: Ring, queues: seq<seq<AlarmEntry>>, rings: seq<Ring>, clock: seq<int>,
                keys: map<AlarmEntry, EntryKey>)
    requires 0 < |clock| && g.now == clock[0] && !RingFails(g) && g.entry in keys && OrderedBy(q, keys)
    requires Run(queues, rings, clock[1..], keys[g.entry := g.after]) && RoundStep(q, g, keys, queues[0])
    requires 0 < |rings| ==> rings[0].before.alarmTime - g.now < MinimumDelay
    ensures Run([q] + queues, [g] + rings, clock, keys)
  {
    var qs, rs := [q] + queues, [g] + rings;
    assert KeysAt(rs, 0, keys) == keys;
    forall i | 0 < i <= |rs|
      ensures KeysAt(rs, i, keys) == KeysAt(rings, i - 1, keys[g.entry := g.after])
    {
      KeysAtCons(g, rings, i - 1, keys);
    }
    forall i | 0 <= i <= |rs|
      ensures OrderedBy(qs[i], KeysAt(rs, i, keys))
    {
      if i > 0 {
        assert qs[i] == queues[i - 1];
      }
    }
    forall i | 0 <= i < |rs|
      ensures rs[i].now == clock[i] && RoundStep(qs[i], rs[i], KeysAt(rs, i, keys), qs[i + 1])
    {
      if i > 0 {
        assert rs[i] == rings[i - 1] && qs[i] == queues[i - 1] && qs[i + 1] == queues[i];
        assert clock[1..][i - 1] == clock[i];
      }
    }
  }

  /**
   * A round in front of a chained run is chained from the keys before it, when it began from
   * its entry's key there and the run began from the key it left.
   */
  lemma ChainedCons(g: Ring, rings: seq<Ring>, keys: map<AlarmEntry, EntryKey>)
    requires g.entry in keys && g.before == keys[g.entry]
    requires Chained(rings, keys[g.entry := g.after])
    ensures Chained([g] + rings, keys)
    ensures Advanced([g] + rings, keys) == Advanced(rings, keys[g.entry := g.after])
  {
    var rs := [g] + rings;
    forall i | 0 <= i < |rs|
      ensures rs[i].entry in keys && rs[i].before == KeyAt(rs, i, rs[i].entry, keys[rs[i].entry])
    {
      if i > 0 {
        assert rs[i] == rings[i - 1];
        KeyAtCons(g, rings, i - 1, rs[i].entry, keys[rs[i].entry]);
      }
    }
    KeysAtCons(g, rings, |rings|, keys);
  }

  /**
   * An entry queued when round `i0` began, that neither that round nor any later one rang, is
   * still queued after the run.
   */
  lemma {:induction false} RunKeeps(queues: seq<seq<AlarmEntry>>, rings: seq<Ring>, clock: seq<int>,
                                    keys: map<AlarmEntry, EntryKey>, x: AlarmEntry, i0: nat)
    requires Run(queues, rings, clock, keys) && i0 <= |rings| && x in queues[i0] && x !in Entries(rings)[i0..]
    ensures x in queues[|rings|]
  {
    var i := i0;
    while i < |rings|
      invariant i0 <= i <= |rings| && x in queues[i]
    {
      var k := KeysAt(rings, i, keys);
      assert RoundStep(queues[i], rings[i], k, queues[i + 1]);
      assert x != rings[i].entry by {
        assert Entries(rings)[i0..][i - i0] == rings[i].entry;
      }
      var rest := queues[i][1..];
      assert queues[i] == [queues[i][0]] + rest;
      if RingsAgain(rings[i]) {
        AddedByKeeps(rest, rings[i].entry, k[rings[i].entry := rings[i].after]);
      }
      i := i + 1;
    }
  }

  // ---------------------------------------------------------------- ringNextAlarm on snapshots

  /**
   * What ringNextAlarm reads and changes of a manager: its queue, the keys of the entries
   * involved, whether the waiter is gone, and the calls made on the waiter.
   */
  datatype Snap = Snap(queue: seq<AlarmEntry>, keys: map<AlarmEntry, EntryKey>, stopped: bool, waiterCalls: seq<WaiterCall>)

  /** Every queued entry has a key in the snapshot. */
  predicate Covered(s: Snap)
  {
    forall x :: x in s.queue ==> x in s.keys
  }

  /** The alarm time of the first entry of a snapshot's queue. */
  function FirstTime(s: Snap): int
    requires Covered(s) && s.queue != []
  {
    s.keys[s.queue[0]].alarmTime
  }

  /**
   * One round takes snapshot `s0` to `s1` on reading `now` and answers `r`: RoundStep on the
   * queue, both queues in compareTo order, the entry's key replaced by the one the round left,
   * an exception exactly when nextAlarm failed for a repeating entry, and the waiter untouched.
   */
  ghost predicate Round(s0: Snap, g: Ring, now: int, r: Outcome<Fault>, s1: Snap)
  {
    g.entry in s0.keys && g.now == now && g.before == s0.keys[g.entry] &&
    RoundStep(s0.queue, g, s0.keys, s1.queue) && OrderedBy(s0.queue, s0.keys) && OrderedBy(s1.queue, s1.keys) &&
    (r.Fail? <==> RingFails(g)) &&
    (r.Fail? ==> r.error == g.entry.nextAlarmOf(g.before.alarmTime, g.now).error) &&
    s1.keys == s0.keys[g.entry := g.after] && s1.stopped == s0.stopped && s1.waiterCalls == s0.waiterCalls
  }

  /**
   * How ringNextAlarm ends, from `s0` to `s1` after `rings`: nothing happens on an empty queue;
   * Diverges when there is no clock reading left for a round that must come; the exception of
   * the last round; and otherwise nothing more when the queue is empty, a NullPointerException
   * when the waiter is gone, or a normal end.
   */
  ghost predicate Ended(s0: Snap, rings: seq<Ring>, clock: seq<int>, r: Outcome<Fault>, s1: Snap)
    requires Covered(s1)
  {
    if s0.queue == [] then rings == [] && r == Pass
    else if clock == [] then rings == [] && r == Fail(Diverges)
    else
      0 < |rings| &&
      var g := rings[|rings| - 1];
      if RingFails(g) then r == Fail(g.entry.nextAlarmOf(g.before.alarmTime, g.now).error)
      else if s1.queue == [] then r == Pass
      else if FirstTime(s1) - g.now < MinimumDelay then |rings| == |clock| && r == Fail(Diverges)
      else if s1.stopped then r == Fail(NullPointer)
      else r == Pass
  }

  /** The waiter is restarted for the new first alarm exactly on a normal end with a non-empty queue. */
  ghost predicate Restarted(s0: Snap, r: Outcome<Fault>, s1: Snap)
    requires Covered(s1)
  {
    s1.waiterCalls == if r.Pass? && s1.queue != [] then s0.waiterCalls + [Restart(FirstTime(s1))] else s0.waiterCalls
  }

  /**
   * A whole ringNextAlarm from `s0` to `s1` on the readings `clock`: a run of rounds from the
   * old queue and keys to the new queue that rang `rung`, each from the key its entry had
   * then, leaving every entry with the key its last round gave it, and ending as Ended and
   * Restarted say.
   */
  ghost predicate Ringing(s0: Snap, clock: seq<int>, rung: seq<AlarmEntry>, rings: seq<Ring>,
                          queues: seq<seq<AlarmEntry>>, r: Outcome<Fault>, s1: Snap)
  {
    Run(queues, rings, clock, s0.keys) && queues[0] == s0.queue && queues[|rings|] == s1.queue && rung == Entries(rings) &&
    Chained(rings, s0.keys) && s1.keys == Advanced(rings, s0.keys) && s1.stopped == s0.stopped &&
    Covered(s1) && Ended(s0, rings, clock, r, s1) && Restarted(s0, r, s1)
  }

  /** No round: an empty queue, or no clock reading for the first round. */
  lemma RingingNone(s: Snap, clock: seq<int>, r: Outcome<Fault>)
    requires OrderedBy(s.queue, s.keys)
    requires (s.queue == [] && r == Pass) || (s.queue != [] && clock == [] && r == Fail(Diverges))
    ensures Ringing(s, clock, [], [], [s.queue], r, s)
  {
    AdvancedNone(s.keys);
    assert KeysAt([], 0, s.keys) == s.keys;
  }

  /**
   * One round and the end: an exception, an empty queue, a first entry under a second ahead
   * with no reading left, a missing waiter, or a restart of the waiter.
   */
  lemma RingingOne(s0: Snap, g: Ring, r0: Outcome<Fault>, s1: Snap, clock: seq<int>, r: Outcome<Fault>, s2: Snap)
    requires 0 < |clock| && Round(s0, g, clock[0], r0, s1) && Covered(s1)
    requires s2.queue == s1.queue && s2.keys == s1.keys && s2.stopped == s1.stopped
    requires r0.Fail? ==> r == r0 && s2 == s1
    requires r0.Pass? && s1.queue == [] ==> r == Pass && s2 == s1
    requires r0.Pass? && s1.queue != [] && FirstTime(s1) - clock[0] < MinimumDelay ==>
      |clock| == 1 && r == Fail(Diverges) && s2 == s1
    requires r0.Pass? && s1.queue != [] && FirstTime(s1) - clock[0] >= MinimumDelay ==>
      if s1.stopped then r == Fail(NullPointer) && s2 == s1
      else r == Pass && s2.waiterCalls == s1.waiterCalls + [Restart(FirstTime(s1))]
    ensures Ringing(s0, clock, [g.entry], [g], [s0.queue, s1.queue], r, s2)
  {
    assert [g] + [] == [g];
    ChainedCons(g, [], s0.keys);
    AdvancedNone(s1.keys);
    assert KeysAt([g], 0, s0.keys) == s0.keys;
    KeysAtCons(g, [], 0, s0.keys);
    assert KeysAt([], 0, s1.keys) == s1.keys;
  }

  /** One round whose next first entry is under a second ahead, and the rest of the rounds. */
  lemma RingingCons(s0: Snap, g: Ring, s1: Snap, clock: seq<int>, rung: seq<AlarmEntry>, rings: seq<Ring>,
                    queues: seq<seq<AlarmEntry>>, r: Outcome<Fault>, s2: Snap)
    requires 1 < |clock| && Round(s0, g, clock[0], Pass, s1) && Covered(s1)
    requires s1.queue != [] && FirstTime(s1) - clock[0] < MinimumDelay
    requires Ringing(s1, clock[1..], rung, rings, queues, r, s2)
    ensures Ringing(s0, clock, [g.entry] + rung, [g] + rings, [s0.queue] + queues, r, s2)
  {
    RunFirst(queues, rings, clock[1..], s1.keys);
    ChainedFirst(rings, s1.keys);
    RunCons(s0.queue, g, queues, rings, clock, s0.keys);
    ChainedCons(g, rings, s0.keys);
    assert ([g] + rings)[1..] == rings;
    assert ([g] + rings)[|rings|] == rings[|rings| - 1];
  }

  /**
   * ringNextAlarm leaves every entry it did not ring where it was: still queued, with the same
   * alarm time, last update time and name.
   */
  lemma RingingKeeps(s0: Snap, clock: seq<int>, rung: seq<AlarmEntry>, rings: seq<Ring>,
                     queues: seq<seq<AlarmEntry>>, r: Outcome<Fault>, s1: Snap, x: AlarmEntry)
    requires Ringing(s0, clock, rung, rings, queues, r, s1)
    requires x in s0.queue && x in s0.keys && x !in rung
    ensures x in s1.queue && s1.keys[x] == s0.keys[x]
  {
    assert Entries(rings)[0..] == rung;
    RunKeeps(queues, rings, clock, s0.keys, x, 0);
    AdvancedUnrung(rings, s0.keys, x, 0);
  }

  /**
   * A round that rings an entry again puts it back with its new key, when no other entry of
   * the queue has that key.
   */
  lemma RoundPutsBack(q: seq<AlarmEntry>, g: Ring, keys: map<AlarmEntry, EntryKey>, q2: seq<AlarmEntry>)
    requires RoundStep(q, g, keys, q2) && OrderedBy(q, keys) && RingsAgain(g)
    requires forall j :: 1 <= j < |q| ==> keys[q[j]] != g.after
    ensures g.entry in q2
  {
    var rest := q[1..];
    assert g.entry !in rest by {
      forall j | 1 <= j < |q|
        ensures q[j] != g.entry
      {
        assert KeyBefore(keys[q[0]], keys[q[j]]);
      }
    }
    AddedByKeeps(rest, g.entry, keys[g.entry := g.after]);
  }

  /**
   * An entry that round `i` of a run put back, when no other entry queued then had its new
   * key, is still queued after the run with that key, unless a later round rang it again.
   */
  lemma RunRequeues(queues: seq<seq<AlarmEntry>>, rings: seq<Ring>, clock: seq<int>, keys: map<AlarmEntry, EntryKey>, i: nat)
    requires Run(queues, rings, clock, keys) && Chained(rings, keys)
    requires i < |rings| && RingsAgain(rings[i]) && rings[i].entry !in Entries(rings)[i + 1..]
    requires forall j :: 1 <= j < |queues[i]| ==> queues[i][j] in keys && KeysAt(rings, i, keys)[queues[i][j]] != rings[i].after
    ensures rings[i].entry in queues[|rings|] && rings[i].entry in keys
    ensures Advanced(rings, keys)[rings[i].entry] == rings[i].after
  {
    var k, e := KeysAt(rings, i, keys), rings[i].entry;
    assert RoundStep(queues[i], rings[i], k, queues[i + 1]) && OrderedBy(queues[i], k);
    RoundPutsBack(queues[i], rings[i], k, queues[i + 1]);
    RunKeeps(queues, rings, clock, keys, e, i + 1);
    AdvancedUnrung(rings, keys, e, i + 1);
  }

  /**
   * ringNextAlarm keeps what a round put back: an entry that round `i` rang again, when no
   * other entry queued then had its new key, is still queued at the end with that key,
   * unless a later round rang it again.
   */
  lemma RingingRequeues(s0: Snap, clock: seq<int>, rung: seq<AlarmEntry>, rings: seq<Ring>,
                        queues: seq<seq<AlarmEntry>>, r: Outcome<Fault>, s1: Snap, i: nat)
    requires Ringing(s0, clock, rung, rings, queues, r, s1)
    requires i < |rings| && RingsAgain(rings[i]) && rings[i].entry !in Entries(rings)[i + 1..]
    requires forall j :: 1 <= j < |queues[i]| ==> queues[i][j] in s0.keys && KeysAt(rings, i, s0.keys)[queues[i][j]] != rings[i].after
    ensures rings[i].entry in s1.queue && s1.keys[rings[i].entry] == rings[i].after
  {
    RunRequeues(queues, rings, clock, s0.keys, i);
  }

  // ---------------------------------------------------------------- the manager

  class AlarmManager {
    var queue: seq<AlarmEntry>
    /** waiter == null */
    var stopped: bool
    ghost var waiterCalls: seq<WaiterCall>

    /** The queue is in compareTo order, each key at most once. */
    predicate Valid()
      reads this, queue
    {
      InOrder(queue)
    }

    /** isStopped */
    predicate IsStopped()
      reads this
    {
      stopped
    }

    /** The manager as ringNextAlarm sees it, with the keys of `entries`. */
    ghost function Snapshot(entries: set<AlarmEntry>): Snap
      reads this, entries
    {
      Snap(queue, Keys(entries), stopped, waiterCalls)
    }

    /** queue.add(e) on the TreeSet. */
    method QueueAdd(e: AlarmEntry)
      requires Valid()
      modifies this
      ensures Valid() && queue == AddedTo(old(queue), e)
      ensures forall x: AlarmEntry :: x in queue <==> x in old(queue) || (x == e && !HasKey(old(queue), e.Key()))
      ensures stopped == old(stopped) && waiterCalls == old(waiterCalls)
    {
      AddedToInOrder(queue, e);
      queue := AddedTo(queue, e);
    }

    /** queue.remove(e) on the TreeSet: answers whether an element compared equal to the key. */
    method QueueRemove(k: EntryKey) returns (found: bool)
      requires Valid()
      modifies this
      ensures Valid() && queue == Removed(old(queue), k) && found == HasKey(old(queue), k)
      ensures forall x: AlarmEntry :: x in queue <==> x in old(queue) && x.Key() != k
      ensures stopped == old(stopped) && waiterCalls == old(waiterCalls)
    {
      found := HasKey(queue, k);
      RemovedInOrder(queue, k);
      queue := Removed(queue, k);
    }

    /** queue.remove(queue.first()): the rest of the queue, without the first entry. */
    method QueueRemoveFirst()
      requires Valid() && queue != []
      modifies this
      ensures Valid() && queue == old(queue)[1..] && old(queue)[0] !in queue
      ensures stopped == old(stopped) && waiterCalls == old(waiterCalls)
    {
      InOrderTail(queue);
      queue := queue[1..];
    }

    /** A call on the AlarmWaiter thread, which leaves the queue alone. */
    method CallWaiter(c: WaiterCall)
      requires Valid()
      modifies this
      ensures Valid() && queue == old(queue) && stopped == old(stopped)
      ensures waiterCalls == old(waiterCalls) + [c]
    {
      waiterCalls := waiterCalls + [c];
    }

    /** A new manager: an empty queue and a waiter that has not been called. */
    constructor ()
      ensures Valid() && queue == [] && !IsStopped() && waiterCalls == []
    {
      queue := [];
      stopped := false;
      waiterCalls := [];
    }

    /**
     * addAlarm: an entry less than a second ahead of the clock is refused and nothing changes;
     * otherwise it is added, and the waiter is told its time when the first element of the
     * queue is equal to it (a NullPointerException once the waiter is gone).
     */
    method AddAlarm(e: AlarmEntry, now: int) returns (r: Outcome<AlarmError>)
      requires Valid()
      modifies this
      ensures Valid() && stopped == old(stopped)
      ensures CheckAlarmTime(e.alarmTime, now).Fail? ==>
        r == Fail(PastDate) && queue == old(queue) && waiterCalls == old(waiterCalls)
      ensures CheckAlarmTime(e.alarmTime, now).Pass? ==>
        queue == AddedTo(old(queue), e) &&
        (!Equals(queue[0], e) ==> r == Pass && waiterCalls == old(waiterCalls)) &&
        (Equals(queue[0], e) && stopped ==> r == Fail(RuntimeFault(NullPointer)) && waiterCalls == old(waiterCalls)) &&
        (Equals(queue[0], e) && !stopped ==> r == Pass && waiterCalls == old(waiterCalls) + [Update(e.alarmTime)])
    {
      var check := CheckAlarmTime(e.alarmTime, now);
      if check.Fail? {
        return check;
      }
      QueueAdd(e);
      r := Pass;
      if Equals(queue[0], e) {
        if stopped {
          return Fail(RuntimeFault(NullPointer));
        }
        CallWaiter(Update(e.alarmTime));
      }
    }

    /**
     * removeAlarm: on an empty queue, false and nothing changes; otherwise the element equal
     * to the entry under compareTo is taken out and the answer is whether there was one. When
     * the entry equals the old first element and the queue is not left empty, the waiter is
     * told the new first time (a NullPointerException once the waiter is gone).
     */
    method RemoveAlarm(e: AlarmEntry) returns (r: Result<bool, Fault>)
      requires Valid()
      modifies this
      ensures Valid() && stopped == old(stopped)
      ensures old(queue) == [] ==> r == Success(false) && queue == [] && waiterCalls == old(waiterCalls)
      ensures old(queue) != [] ==> queue == Removed(old(queue), e.Key())
      ensures r.Failure? <==> old(queue) != [] && queue != [] && Equals(e, old(queue)[0]) && stopped
      ensures r.Failure? ==> r.error == NullPointer && waiterCalls == old(waiterCalls)
      ensures r.Success? ==> r.value == HasKey(old(queue), e.Key())
      ensures r.Success? && old(queue) != [] && queue != [] && Equals(e, old(queue)[0]) ==>
        waiterCalls == old(waiterCalls) + [Update(queue[0].alarmTime)]
      ensures !(old(queue) != [] && queue != [] && Equals(e, old(queue)[0])) ==> waiterCalls == old(waiterCalls)
    {
      var found := false;
      if queue != [] {
        var wasFirst := queue[0];
        found := QueueRemove(e.Key());
        if queue != [] && Equals(e, wasFirst) {
          if stopped {
            return Failure(NullPointer);
          }
          CallWaiter(Update(queue[0].alarmTime));
        }
      }
      return Success(found);
    }

    /** removeAllAlarms: the queue is emptied; the waiter is left alone. */
    method RemoveAllAlarms()
      modifies this
      ensures Valid() && queue == []
      ensures stopped == old(stopped) && waiterCalls == old(waiterCalls)
    {
      queue := [];
    }

    /**
     * removeAllAlarmsAndStop: the waiter is stopped and dropped and the queue emptied; a second
     * call finds no waiter (a NullPointerException) and changes nothing. Either way the
     * manager is stopped afterwards.
     */
    method RemoveAllAlarmsAndStop() returns (r: Outcome<Fault>)
      modifies this
      ensures IsStopped()
      ensures old(stopped) ==> r == Fail(NullPointer) && queue == old(queue) && waiterCalls == old(waiterCalls)
      ensures !old(stopped) ==> r == Pass && queue == [] && waiterCalls == old(waiterCalls) + [Stop]
    {
      if stopped {
        return Fail(NullPointer);
      }
      waiterCalls := waiterCalls + [Stop];
      stopped := true;
      queue := [];
      r := Pass;
    }

    /** containsAlarm: whether an element of the queue compares equal to the cron alarm. */
    method ContainsAlarm(e: AlarmEntry) returns (b: bool)
      requires e.schedule.Cron?
      ensures b == HasKey(queue, e.Key())
    {
      b := HasKey(queue, e.Key());
    }

    /** getAllAlarms: a new list of the entries, by iterating over the queue in its order. */
    method GetAllAlarms() returns (result: seq<AlarmEntry>)
      requires Valid()
      ensures result == queue && InOrder(result)
    {
      result := [];
      var i := 0;
      while i < |queue|
        invariant 0 <= i <= |queue|
        invariant result == queue[..i]
      {
        result := result + [queue[i]];
        i := i + 1;
      }
      assert queue[..i] == queue;
    }

    /**
     * One round of ringNextAlarm: the first entry leaves the queue, is rung, and goes back in
     * when updateAlarmTime() answers true. An exception from nextAlarm ends the round with the
     * entry out of the queue.
     */
    method RingFirst(now: int) returns (rung: Option<AlarmEntry>, r: Outcome<Fault>)
      requires Valid()
      modifies this, queue
      ensures Valid() && stopped == old(stopped) && waiterCalls == old(waiterCalls)
      ensures forall x: AlarmEntry :: x in queue ==> x in old(queue)
      ensures old(queue) == [] ==> rung == None && r == Pass && queue == []
      ensures old(queue) != [] ==>
        var e := old(queue)[0];
        var next := e.nextAlarmOf(old(e.alarmTime), now);
        var again := e.isRepeating && next.Success? && 0 < next.value;
        rung == Some(e) &&
        (r.Fail? <==> e.isRepeating && next.Failure?) &&
        (r.Fail? ==> r.error == next.error) &&
        queue == (if again then AddedTo(old(queue)[1..], e) else old(queue)[1..]) &&
        (again ==> e.alarmTime == next.value && e.lastUpdateTime == now) &&
        (!again ==> e.alarmTime == old(e.alarmTime) && e.lastUpdateTime == old(e.lastUpdateTime)) &&
        e.name == old(e.name)
      ensures forall x: AlarmEntry :: x in old(queue) && x != old(queue)[0] ==> x.Key() == old(x.Key())
    {
      if queue == [] {
        return None, Pass;
      }
      var e := queue[0];
      QueueRemoveFirst();
      rung := Some(e);
      var updated := e.UpdateAlarmTime(now);
      if updated.Failure? {
        return rung, Fail(updated.error);
      }
      if updated.value {
        QueueAdd(e);
      }
      r := Pass;
    }

    /**
     * RingFirst on a non-empty queue, seen as a round: the entry rung, the key it had (its key
     * in the snapshot `Keys(entries)`) and the one it has after, and the reading.
     */
    method RingRound(now: int, ghost entries: set<AlarmEntry>) returns (r: Outcome<Fault>, ghost g: Ring)
      requires Valid() && queue != [] && forall x :: x in queue ==> x in entries
      modifies this, queue
      ensures Valid() && forall x :: x in queue ==> x in entries
      ensures g.entry == old(queue)[0] && Round(old(Snapshot(entries)), g, now, r, Snapshot(entries))
    {
      ghost var k0, q0 := Keys(entries), queue;
      InOrderOrderedBy(q0, k0);
      var first;
      first, r := RingFirst(now);
      g := Ring(q0[0], k0[q0[0]], q0[0].Key(), now);
      assert Keys(entries) == k0[g.entry := g.after];
      InOrderOrderedBy(queue, Keys(entries));
      AddedToIsAddedBy(q0[1..], g.entry, Keys(entries));
    }

    /**
     * ringNextAlarm: rings the first entry; then, when the new first entry is less than a
     * second ahead of the clock, rings again, and otherwise restarts the waiter for it (a
     * NullPointerException once the waiter is gone). `clock` holds the successive readings of
     * the clock, one per round; running out of readings reports Diverges. `entries` is a
     * ghost frame holding every queued entry, whose keys the snapshots record. The ghost
     * results record the rounds: `rings[i]` is round i and `queues[i]` the queue it began with.
     */
    method RingNextAlarm(clock: seq<int>, ghost entries: set<AlarmEntry>)
      returns (rung: seq<AlarmEntry>, r: Outcome<Fault>, ghost rings: seq<Ring>, ghost queues: seq<seq<AlarmEntry>>)
      requires Valid() && forall x :: x in queue ==> x in entries
      modifies this, entries
      decreases |clock|
      ensures Valid() && forall x :: x in queue ==> x in entries
      ensures Ringing(old(Snapshot(entries)), clock, rung, rings, queues, r, Snapshot(entries))
    {
      ghost var s0 := Snapshot(entries);
      if queue == [] || clock == [] {
        rung, r, rings, queues := [], if queue == [] then Pass else Fail(Diverges), [], [queue];
        InOrderOrderedBy(queue, s0.keys);
        RingingNone(s0, clock, r);
        return;
      }
      var e := queue[0];
      var r0, g := RingRound(clock[0], entries);
      ghost var s1 := Snapshot(entries);
      assert Covered(s1) && s1.queue == queue && s1.stopped == stopped;
      assert queue != [] ==> FirstTime(s1) == queue[0].alarmTime;
      rung, rings, queues := [e], [g], [s0.queue, queue];
      if r0.Fail? || queue == [] {
        r := r0;
      } else if queue[0].alarmTime - clock[0] < MinimumDelay {
        if |clock| == 1 {
          r := Fail(Diverges);
        } else {
          var more, r1, moreRings, moreQueues := RingNextAlarm(clock[1..], entries);
          RingingCons(s0, g, s1, clock, more, moreRings, moreQueues, r1, Snapshot(entries));
          rung, r, rings, queues := rung + more, r1, rings + moreRings, [s0.queue] + moreQueues;
          return;
        }
      } else if stopped {
        r := Fail(NullPointer);
      } else {
        CallWaiter(Restart(queue[0].alarmTime));
        r := Pass;
      }
      RingingOne(s0, g, r0, s1, clock, r, Snapshot(entries));
    }
  }
}
