/** What one processing step does to the pending queue: the walk that
    admits approved transactions in order until the orbit fills, and the
    removal of the admitted ones that follows it. */
module Admission {
  import opened Transactions
  import opened Outcomes
  import opened Consensus

  /** The outcome of a walk over the queue: what was admitted, what was
      looked at and rejected, and what was never reached. */
  datatype Walk = Walk(admitted: seq<Transaction>, skipped: seq<Transaction>, unvisited: seq<Transaction>)

  /** The walk with `room` free places: an approved transaction is admitted,
      a rejected one is skipped, and the walk stops once no place is left
      (right after the admission that uses the last one). */
  function Drain(queue: seq<Transaction>, room: nat, pool: Pool): (w: Walk)
    ensures |w.unvisited| <= |queue|
    decreases |queue|
  {
    if queue == [] || room == 0 then Walk([], [], queue)
    else if Approves(pool, queue[0]) then
      var w := Drain(queue[1..], room - 1, pool);
      Walk([queue[0]] + w.admitted, w.skipped, w.unvisited)
    else
      var w := Drain(queue[1..], room, pool);
      Walk(w.admitted, [queue[0]] + w.skipped, w.unvisited)
  }

  /** The approved entries of `s`, in order. */
  function ApprovedOf(pool: Pool, s: seq<Transaction>): seq<Transaction>
  {
    if s == [] then [] else (if Approves(pool, s[0]) then [s[0]] else []) + ApprovedOf(pool, s[1..])
  }

  /** The rejected entries of `s`, in order. */
  function RejectedOf(pool: Pool, s: seq<Transaction>): seq<Transaction>
  {
    if s == [] then [] else (if Approves(pool, s[0]) then [] else [s[0]]) + RejectedOf(pool, s[1..])
  }

  /** The part of the queue a walk looked at. */
  function Visited(queue: seq<Transaction>, w: Walk): seq<Transaction>
    requires |w.unvisited| <= |queue|
  {
    queue[..|queue| - |w.unvisited|]
  }

  /** Where the walk stands after looking at `j` entries: what it admitted
      and skipped so far, and how many places are still free. */
  datatype Scan = Scan(admitted: seq<Transaction>, skipped: seq<Transaction>, left: nat)

  /** The walk computed front to back, one entry at a time, as the source's
      loop runs it; once no place is left it looks at nothing more. */
  function Scanned(queue: seq<Transaction>, j: nat, room: nat, pool: Pool): (s: Scan)
    requires j <= |queue|
    ensures s.left <= room
    decreases j
  {
    if j == 0 then Scan([], [], room)
    else
      var s := Scanned(queue, j - 1, room, pool);
      if s.left == 0 then s
      else if Approves(pool, queue[j - 1]) then Scan(s.admitted + [queue[j - 1]], s.skipped, s.left - 1)
      else Scan(s.admitted, s.skipped + [queue[j - 1]], s.left)
  }

  /** While the forward walk still has room, it agrees with Drain: what it
      did so far, followed by the walk from `j` on, is the whole walk. */
  lemma {:induction false} ScannedResumes(queue: seq<Transaction>, j: nat, room: nat, pool: Pool)
    requires j <= |queue| && (j == 0 || Scanned(queue, j - 1, room, pool).left > 0)
    ensures var s := Scanned(queue, j, room, pool);
      var d := Drain(queue[j..], s.left, pool);
      Drain(queue, room, pool) == Walk(s.admitted + d.admitted, s.skipped + d.skipped, d.unvisited)
    decreases j
  {
    if j == 0 {
      assert queue[0..] == queue;
      var d := Drain(queue, room, pool);
      assert [] + d.admitted == d.admitted && [] + d.skipped == d.skipped;
    } else {
      var p := Scanned(queue, j - 1, room, pool);
      assert j - 1 == 0 || Scanned(queue, j - 2, room, pool).left > 0;
      ScannedResumes(queue, j - 1, room, pool);
      var x := queue[j - 1];
      assert queue[j - 1..][0] == x && queue[j - 1..][1..] == queue[j..];
      if Approves(pool, x) {
        var d := Drain(queue[j..], p.left - 1, pool);
        Associative(p.admitted, [x], d.admitted);
      } else {
        var d := Drain(queue[j..], p.left, pool);
        Associative(p.skipped, [x], d.skipped);
      }
    }
  }

  /** When the forward walk reaches the end of the queue or uses the last
      place, it is the whole walk: it looked at the first `j` entries and
      left the rest. */
  lemma ScanFinished(queue: seq<Transaction>, j: nat, room: nat, pool: Pool)
    requires j <= |queue| && (j == 0 || Scanned(queue, j - 1, room, pool).left > 0)
    requires j == |queue| || Scanned(queue, j, room, pool).left == 0
    ensures var s := Scanned(queue, j, room, pool);
      Drain(queue, room, pool) == Walk(s.admitted, s.skipped, queue[j..]) &&
      Visited(queue, Drain(queue, room, pool)) == queue[..j]
  {
    ScannedResumes(queue, j, room, pool);
    var s := Scanned(queue, j, room, pool);
    assert Drain(queue[j..], s.left, pool) == Walk([], [], queue[j..]);
    assert s.admitted + [] == s.admitted && s.skipped + [] == s.skipped;
  }

  lemma Associative<T>(a: seq<T>, b: seq<T>, c: seq<T>)
    ensures (a + b) + c == a + (b + c)
  {
  }

  /** The walk splits the queue into a visited prefix and an untouched
      suffix; in the prefix it admits exactly the approved entries and skips
      exactly the rejected ones, both in queue order; it never admits more
      than `room`, and it stops early only when `room` has been used up
      (DrainStopsAfterAdmission and DrainRoomLeftBeforeLast say where). */
  lemma {:induction false} DrainSplitsQueue(queue: seq<Transaction>, room: nat, pool: Pool)
    ensures var w := Drain(queue, room, pool);
      |w.unvisited| <= |queue| &&
      w.unvisited == queue[|queue| - |w.unvisited|..] &&
      w.admitted == ApprovedOf(pool, Visited(queue, w)) &&
      w.skipped == RejectedOf(pool, Visited(queue, w)) &&
      |w.admitted| <= room &&
      (w.unvisited != [] ==> |w.admitted| == room)
    decreases |queue|
  {
    var w := Drain(queue, room, pool);
    if queue == [] || room == 0 {
      assert Visited(queue, w) == [];
    } else {
      var room' := if Approves(pool, queue[0]) then room - 1 else room;
      DrainSplitsQueue(queue[1..], room', pool);
      var w' := Drain(queue[1..], room', pool);
      assert w.unvisited == w'.unvisited;
      assert Visited(queue, w) == [queue[0]] + Visited(queue[1..], w');
      assert Visited(queue, w)[1..] == Visited(queue[1..], w');
    }
  }

  /** A walk that stops early stops right after an admission: the last
      entry it looked at was approved. */
  lemma {:induction false} DrainStopsAfterAdmission(queue: seq<Transaction>, room: nat, pool: Pool)
    ensures var w := Drain(queue, room, pool);
      |w.unvisited| <= |queue| &&
      (room > 0 && w.unvisited != [] ==>
         |Visited(queue, w)| > 0 && Approves(pool, Visited(queue, w)[|Visited(queue, w)| - 1]))
    decreases |queue|
  {
    var w := Drain(queue, room, pool);
    if queue != [] && room > 0 && w.unvisited != [] {
      var room' := if Approves(pool, queue[0]) then room - 1 else room;
      DrainStopsAfterAdmission(queue[1..], room', pool);
      var w' := Drain(queue[1..], room', pool);
      var v, v' := Visited(queue, w), Visited(queue[1..], w');
      assert v == [queue[0]] + v';
      if room' == 0 {
        // the head used the last place: the walk stopped right after it
        assert v' == [] && v == [queue[0]];
      } else {
        assert v[|v| - 1] == v'[|v'| - 1];
      }
    }
  }

  /** Room was still left when the walk looked at its last entry: the
      entries before it were approved fewer than `room` times. With
      DrainSplitsQueue and DrainStopsAfterAdmission this fixes where the
      walk stops. */
  lemma {:induction false} DrainRoomLeftBeforeLast(queue: seq<Transaction>, room: nat, pool: Pool)
    ensures var w := Drain(queue, room, pool);
      |w.unvisited| <= |queue| &&
      (|Visited(queue, w)| > 0 ==>
         |ApprovedOf(pool, Visited(queue, w)[..|Visited(queue, w)| - 1])| < room)
    decreases |queue|
  {
    var w := Drain(queue, room, pool);
    if queue != [] && room > 0 {
      var room' := if Approves(pool, queue[0]) then room - 1 else room;
      DrainRoomLeftBeforeLast(queue[1..], room', pool);
      var w' := Drain(queue[1..], room', pool);
      var v, v' := Visited(queue, w), Visited(queue[1..], w');
      assert v == [queue[0]] + v';
      if v' == [] {
        assert v[..|v| - 1] == [];
      } else {
        // the head was looked at with `room` places, the rest with `room'`
        assert v[..|v| - 1] == [queue[0]] + v'[..|v'| - 1];
        assert v[..|v| - 1][1..] == v'[..|v'| - 1];
      }
    } else {
      assert Visited(queue, w) == [];
    }
  }

  /** Nothing approved is left behind unless the orbit filled up. */
  lemma {:induction false} DrainTakesAllItCan(queue: seq<Transaction>, room: nat, pool: Pool)
    requires |Drain(queue, room, pool).admitted| < room
    ensures Drain(queue, room, pool).unvisited == []
    ensures forall x :: x in Drain(queue, room, pool).skipped ==> !Approves(pool, x)
    decreases |queue|
  {
    if queue != [] {
      var room' := if Approves(pool, queue[0]) then room - 1 else room;
      DrainTakesAllItCan(queue[1..], room', pool);
    }
  }

  /** The walk loses and invents nothing: admitted, skipped and unvisited
      together are the queue, as a multiset. */
  lemma {:induction false} DrainKeepsEverything(queue: seq<Transaction>, room: nat, pool: Pool)
    ensures var w := Drain(queue, room, pool);
      multiset(w.admitted) + multiset(w.skipped) + multiset(w.unvisited) == multiset(queue) &&
      |w.admitted| + |w.skipped| + |w.unvisited| == |queue|
    decreases |queue|
  {
    if queue != [] && room > 0 {
      assert queue == [queue[0]] + queue[1..];
      var room' := if Approves(pool, queue[0]) then room - 1 else room;
      DrainKeepsEverything(queue[1..], room', pool);
    }
  }

  /** `list.remove(x)`: drops the first entry equal to `x`; the source's
      callers only remove entries that are present. */
  function RemoveFirst(q: seq<Transaction>, x: Transaction): (r: seq<Transaction>)
    requires x in q
    ensures |r| == |q| - 1
  {
    if q[0] == x then q[1..] else [q[0]] + RemoveFirst(q[1..], x)
  }

  /** Removing an entry takes exactly one copy of it out of the list. */
  lemma {:induction false} RemoveFirstDropsOne(q: seq<Transaction>, x: Transaction)
    requires x in q
    ensures multiset(RemoveFirst(q, x)) == multiset(q) - multiset{x}
  {
    assert q == [q[0]] + q[1..];
    if q[0] != x {
      RemoveFirstDropsOne(q[1..], x);
    }
  }

  /** `for x in xs: q.remove(x)`; a missing entry raises ValueError. */
  function RemoveEach(q: seq<Transaction>, xs: seq<Transaction>): Result<seq<Transaction>>
    decreases |xs|
  {
    if xs == [] then Ok(q)
    else if xs[0] !in q then Err(ValueError)
    else RemoveEach(RemoveFirst(q, xs[0]), xs[1..])
  }

  /** The removal loop of `process_pending_transactions`: each entry of `xs`
      in turn is taken off the queue. */
  method RemoveAll(q: seq<Transaction>, xs: seq<Transaction>) returns (r: Result<seq<Transaction>>)
    ensures r == RemoveEach(q, xs)
  {
    var rest := q;
    var i := 0;
    while i < |xs|
      invariant 0 <= i <= |xs|
      invariant RemoveEach(rest, xs[i..]) == RemoveEach(q, xs)
    {
      assert xs[i..][0] == xs[i] && xs[i..][1..] == xs[i + 1..];
      if xs[i] !in rest {
        return Err(ValueError);
      }
      rest := RemoveFirst(rest, xs[i]);
      i := i + 1;
    }
    assert xs[i..] == [];
    return Ok(rest);
  }

  lemma {:induction false} RemoveEachPastHead(x: Transaction, t: seq<Transaction>, xs: seq<Transaction>, r: seq<Transaction>)
    requires x !in xs && RemoveEach(t, xs) == Ok(r)
    ensures RemoveEach([x] + t, xs) == Ok([x] + r)
    decreases |xs|
  {
    if xs != [] {
      assert xs[0] != x && xs[0] in t;
      assert RemoveFirst([x] + t, xs[0]) == [x] + RemoveFirst(t, xs[0]);
      RemoveEachPastHead(x, RemoveFirst(t, xs[0]), xs[1..], r);
    }
  }

  /** Everything admitted was approved. */
  lemma {:induction false} DrainAdmitsApproved(queue: seq<Transaction>, room: nat, pool: Pool)
    ensures forall x :: x in Drain(queue, room, pool).admitted ==> Approves(pool, x)
    decreases |queue|
  {
    if queue != [] && room > 0 {
      DrainAdmitsApproved(queue[1..], if Approves(pool, queue[0]) then room - 1 else room, pool);
    }
  }

  /** Removing the admitted transactions one by one, first occurrence each,
      never raises and leaves exactly the skipped and unvisited ones, in
      queue order. Equal transactions get equal verdicts, so the first
      occurrence of an admitted value is always an admitted position. */
  lemma {:induction false} RemovingAdmittedLeavesRest(queue: seq<Transaction>, room: nat, pool: Pool)
    ensures var w := Drain(queue, room, pool);
      RemoveEach(queue, w.admitted) == Ok(w.skipped + w.unvisited)
    decreases |queue|
  {
    if queue != [] && room > 0 {
      if Approves(pool, queue[0]) {
        AdmittedHeadRemoved(queue, room, pool);
      } else {
        SkippedHeadKept(queue, room, pool);
      }
    } else {
      var w := Drain(queue, room, pool);
      assert w == Walk([], [], queue);
      assert RemoveEach(queue, w.admitted) == Ok(queue);
      assert w.skipped + w.unvisited == queue;
    }
  }

  lemma {:induction false} AdmittedHeadRemoved(queue: seq<Transaction>, room: nat, pool: Pool)
    requires room > 0 && queue != [] && Approves(pool, queue[0])
    ensures var w := Drain(queue, room, pool);
      RemoveEach(queue, w.admitted) == Ok(w.skipped + w.unvisited)
    decreases |queue|, 0
  {
    var w := Drain(queue, room, pool);
    var w' := Drain(queue[1..], room - 1, pool);
    var x := queue[0];
    assert w.admitted == [x] + w'.admitted;
    assert w.skipped + w.unvisited == w'.skipped + w'.unvisited;
    assert x in queue && RemoveFirst(queue, x) == queue[1..];
    assert w.admitted[0] == x && w.admitted[1..] == w'.admitted;
    RemovingAdmittedLeavesRest(queue[1..], room - 1, pool);
    calc {
      RemoveEach(queue, w.admitted);
      RemoveEach(RemoveFirst(queue, x), w.admitted[1..]);
      RemoveEach(queue[1..], w'.admitted);
    }
  }

  lemma {:induction false} SkippedHeadKept(queue: seq<Transaction>, room: nat, pool: Pool)
    requires room > 0 && queue != [] && !Approves(pool, queue[0])
    ensures var w := Drain(queue, room, pool);
      RemoveEach(queue, w.admitted) == Ok(w.skipped + w.unvisited)
    decreases |queue|, 0
  {
    var x, t := queue[0], queue[1..];
    var w := Drain(queue, room, pool);
    var w' := Drain(t, room, pool);
    assert w == Walk(w'.admitted, [x] + w'.skipped, w'.unvisited);
    assert RemoveEach([x] + t, w'.admitted) == Ok([x] + (w'.skipped + w'.unvisited)) by {
      RemovingAdmittedLeavesRest(t, room, pool);
      assert x !in w'.admitted by {
        DrainAdmitsApproved(t, room, pool);
      }
      RemoveEachPastHead(x, t, w'.admitted, w'.skipped + w'.unvisited);
    }
    assert queue == [x] + t;
    assert [x] + (w'.skipped + w'.unvisited) == w.skipped + w.unvisited;
  }

  /** How many of the visited transactions pass the structural check: the
      amount each active validator's counter rises by in one processing step. */
  function CountWellFormed(s: seq<Transaction>): (c: nat)
    ensures c <= |s|
  {
    if s == [] then 0 else CountWellFormed(s[..|s| - 1]) + (if WellFormed(s[|s| - 1]) then 1 else 0)
  }

  /** Counting one entry further along a queue. */
  lemma CountWellFormedStep(s: seq<Transaction>, j: nat)
    requires j < |s|
    ensures CountWellFormed(s[..j + 1]) == CountWellFormed(s[..j]) + if WellFormed(s[j]) then 1 else 0
  {
    assert s[..j + 1][..j] == s[..j] && s[..j + 1][j] == s[j];
  }
}
