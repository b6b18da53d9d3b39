/**
 * The websocket registry `active_connections` and the fan-out of one break
 * reminder to it. The source iterates the live Python list while removing
 * from it, so the connection right after a failed one is skipped for that
 * dispatch; `DispatchAsWritten` models exactly that, `Visit` names which
 * connections it reaches, and `DispatchSnapshot` is the intended behaviour.
 */
module Fanout {
  import opened Wrappers

  /** An accepted websocket; it has no identity beyond equality. */
  type Conn = nat

  predicate Distinct(cs: seq<Conn>) {
    forall i, j :: 0 <= i < j < |cs| ==> cs[i] != cs[j]
  }

  lemma DistinctSplit(a: seq<Conn>, b: seq<Conn>)
    requires Distinct(a + b)
    ensures Distinct(a) && Distinct(b)
    ensures forall x :: x in a ==> x !in b
  {
    var s := a + b;
    assert forall i :: 0 <= i < |a| ==> s[i] == a[i];
    assert forall j :: 0 <= j < |b| ==> s[|a| + j] == b[j];
  }

  /** `cs` with every element of `drop` left out, in the original order. */
  function Keep(cs: seq<Conn>, drop: set<Conn>): (r: seq<Conn>)
    ensures |r| <= |cs|
  {
    if |cs| == 0 then []
    else (if cs[0] in drop then [] else [cs[0]]) + Keep(cs[1..], drop)
  }

  lemma {:induction false} KeepConcat(a: seq<Conn>, b: seq<Conn>, drop: set<Conn>)
    ensures Keep(a + b, drop) == Keep(a, drop) + Keep(b, drop)
    decreases |a|
  {
    if |a| > 0 {
      assert (a + b)[1..] == a[1..] + b;
      KeepConcat(a[1..], b, drop);
    } else {
      assert a + b == b;
    }
  }

  /** `Keep` keeps exactly the elements not dropped, and keeps them distinct. */
  lemma {:induction false} KeepMembers(cs: seq<Conn>, drop: set<Conn>)
    ensures forall x :: x in Keep(cs, drop) <==> x in cs && x !in drop
    ensures Distinct(cs) ==> Distinct(Keep(cs, drop))
  {
    if |cs| > 0 {
      KeepMembers(cs[1..], drop);
      assert cs == [cs[0]] + cs[1..];
      if Distinct(cs) {
        DistinctSplit([cs[0]], cs[1..]);
      }
    }
  }

  /** Dropping something that is not there changes nothing. */
  lemma {:induction false} KeepIgnoresAbsent(cs: seq<Conn>, drop: set<Conn>, x: Conn)
    requires x !in cs
    ensures Keep(cs, drop + {x}) == Keep(cs, drop)
  {
    if |cs| > 0 {
      KeepIgnoresAbsent(cs[1..], drop, x);
    }
  }

  lemma {:induction false} KeepNoneDropped(cs: seq<Conn>, drop: set<Conn>)
    requires forall x :: x in cs ==> x !in drop
    ensures Keep(cs, drop) == cs
  {
    if |cs| > 0 {
      KeepNoneDropped(cs[1..], drop);
      assert cs == [cs[0]] + cs[1..];
    }
  }

  /** `active_connections.append(websocket)` once the handshake is accepted. */
  function Accept(cs: seq<Conn>, c: Conn): (r: seq<Conn>)
    ensures |r| == |cs| + 1 && r[..|cs|] == cs && r[|cs|] == c
    ensures Distinct(cs) && c !in cs ==> Distinct(r)
  {
    cs + [c]
  }

  /** Python's `list.remove(x)`: drops the first occurrence of `x`. */
  function RemoveFirst(cs: seq<Conn>, c: Conn): (r: seq<Conn>)
    requires c in cs
    ensures |r| == |cs| - 1
  {
    if cs[0] == c then cs[1..] else [cs[0]] + RemoveFirst(cs[1..], c)
  }

  /** Removing an element that sits right after a prefix not containing it. */
  lemma {:induction false} RemoveFirstOfList(a: seq<Conn>, c: Conn, b: seq<Conn>)
    requires c !in a
    ensures RemoveFirst(a + [c] + b, c) == a + b
    decreases |a|
  {
    var s := a + [c] + b;
    if |a| == 0 {
      assert s == [c] + b;
    } else {
      assert s[0] == a[0];
      assert s[1..] == a[1..] + [c] + b;
      RemoveFirstOfList(a[1..], c, b);
      assert a == [a[0]] + a[1..];
    }
  }

  lemma Assoc(a: seq<Conn>, b: seq<Conn>, c: seq<Conn>)
    ensures a + b + c == a + (b + c)
  {
  }

  /** Dropping `c` from `[c] + b` when `c` is not in `b` leaves `b`. */
  lemma KeepDropsHead(c: Conn, b: seq<Conn>)
    requires c !in b
    ensures Keep([c] + b, {c}) == b
  {
    KeepConcat([c], b, {c});
    KeepNoneDropped(b, {c});
    assert Keep([c], {c}) == [];
  }

  /** Removing the only occurrence of `c` is dropping `c`. */
  lemma RemoveOnlyOccurrence(a: seq<Conn>, c: Conn, b: seq<Conn>)
    requires c !in a && c !in b
    ensures RemoveFirst(a + [c] + b, c) == Keep(a + [c] + b, {c})
  {
    RemoveFirstOfList(a, c, b);
    Assoc(a, [c], b);
    KeepConcat(a, [c] + b, {c});
    KeepNoneDropped(a, {c});
    KeepDropsHead(c, b);
  }

  /** In a list of distinct handles, an element occurs neither before nor after its position. */
  lemma DistinctAt(cs: seq<Conn>, j: int)
    requires Distinct(cs) && 0 <= j < |cs|
    ensures cs[j] !in cs[..j] && cs[j] !in cs[j + 1..]
  {
    var a, b := cs[..j], cs[j + 1..];
    forall m | 0 <= m < |a| ensures a[m] != cs[j] { assert a[m] == cs[m]; }
    forall m | 0 <= m < |b| ensures b[m] != cs[j] { assert b[m] == cs[j + 1 + m]; }
  }

  lemma SplitAt(cs: seq<Conn>, j: int)
    requires 0 <= j < |cs|
    ensures cs == cs[..j] + [cs[j]] + cs[j + 1..]
  {
  }

  /** When `c` occurs only once, removing it is dropping it. */
  lemma RemoveFirstOfDistinct(cs: seq<Conn>, c: Conn)
    requires Distinct(cs) && c in cs
    ensures RemoveFirst(cs, c) == Keep(cs, {c})
  {
    var j :| 0 <= j < |cs| && cs[j] == c;
    DistinctAt(cs, j);
    SplitAt(cs, j);
    RemoveOnlyOccurrence(cs[..j], c, cs[j + 1..]);
  }

  /** `list.remove` raises ValueError when the socket is no longer registered. */
  datatype RegistryError = NotRegistered

  /** The `except WebSocketDisconnect` branch of the websocket endpoint. */
  function Disconnect(cs: seq<Conn>, c: Conn): (r: Result<seq<Conn>, RegistryError>)
    ensures r.Ok? <==> c in cs
    ensures r.Ok? && Distinct(cs) ==> r.value == Keep(cs, {c})
  {
    if c in cs then
      (if Distinct(cs) then RemoveFirstOfDistinct(cs, c); Ok(RemoveFirst(cs, c))
       else Ok(RemoveFirst(cs, c)))
    else Err(NotRegistered)
  }

  /** The connections `for connection in active_connections` reaches when the
      sends to `failing` raise: removing a failed one shifts the rest left while
      the iterator's index still advances, so its successor is passed over. */
  function Visit(cs: seq<Conn>, failing: set<Conn>): (v: seq<Conn>)
    ensures forall x :: x in v ==> x in cs
    decreases |cs|
  {
    if |cs| == 0 then []
    else if cs[0] in failing then [cs[0]] + Visit(cs[if |cs| >= 2 then 2 else 1..], failing)
    else [cs[0]] + Visit(cs[1..], failing)
  }

  /** The connections a dispatch removes: those it reached whose send raised. */
  function Removed(cs: seq<Conn>, failing: set<Conn>): set<Conn> {
    set c | c in Visit(cs, failing) && c in failing
  }

  /** A connection is reached exactly when it is first or its predecessor was not
      a reached connection whose send raised. */
  lemma {:induction false} VisitedIff(cs: seq<Conn>, failing: set<Conn>, j: int)
    requires Distinct(cs) && 0 <= j < |cs|
    ensures cs[j] in Visit(cs, failing) <==>
              j == 0 || !(cs[j - 1] in Visit(cs, failing) && cs[j - 1] in failing)
    decreases |cs|
  {
    var v := Visit(cs, failing);
    if j > 0 {
      if cs[0] in failing {
        if |cs| >= 2 {
          var tail := cs[2..];
          assert v == [cs[0]] + Visit(tail, failing);
          assert cs == [cs[0], cs[1]] + tail;
          DistinctSplit([cs[0], cs[1]], tail);
          if j == 1 {
            assert cs[1] !in v;
          } else {
            VisitedIff(tail, failing, j - 2);
            assert tail[j - 2] == cs[j];
            if j > 2 {
              assert tail[j - 3] == cs[j - 1];
              assert cs[j - 1] in v <==> cs[j - 1] in Visit(tail, failing);
            } else {
              assert cs[1] !in Visit(tail, failing);
            }
            assert cs[j] in v <==> cs[j] in Visit(tail, failing);
          }
        }
      } else {
        var tail := cs[1..];
        assert v == [cs[0]] + Visit(tail, failing);
        assert cs == [cs[0]] + tail;
        DistinctSplit([cs[0]], tail);
        VisitedIff(tail, failing, j - 1);
        assert tail[j - 1] == cs[j];
        if j > 1 {
          assert tail[j - 2] == cs[j - 1];
          assert cs[j - 1] in v <==> cs[j - 1] in Visit(tail, failing);
        }
        assert cs[j] in v <==> cs[j] in Visit(tail, failing);
      }
    }
  }

  /** What the as-written loop has done once the original list `cs` is split into
      the part it has passed (`consumed`) and the part still ahead (`todo`): `live`
      is the list being iterated and `i` the iterator's index into it. */
  ghost predicate LoopState(cs: seq<Conn>, failing: set<Conn>, live: seq<Conn>, i: int,
                            consumed: seq<Conn>, todo: seq<Conn>,
                            visited: seq<Conn>, removed: set<Conn>, delivered: seq<Conn>)
  {
    && Distinct(cs)
    && cs == consumed + todo
    && live == Keep(consumed, removed) + todo
    && |Keep(consumed, removed)| <= i
    && (|todo| > 0 ==> i == |Keep(consumed, removed)|)
    && Visit(cs, failing) == visited + Visit(todo, failing)
    && removed == (set x | x in visited && x in failing)
    && (forall x :: x in visited ==> x in consumed)
    && delivered == Keep(visited, failing)
  }

  /** The handles still ahead of the loop are fresh: none was passed already. */
  lemma AheadIsFresh(consumed: seq<Conn>, todo: seq<Conn>)
    requires Distinct(consumed + todo)
    ensures |todo| > 0 ==> todo[0] !in consumed
    ensures |todo| >= 2 ==> todo[1] !in consumed && todo[1] != todo[0]
  {
    var cs := consumed + todo;
    if |todo| > 0 {
      DistinctAt(cs, |consumed|);
      assert cs[..|consumed|] == consumed;
    }
    if |todo| >= 2 {
      DistinctAt(cs, |consumed| + 1);
      assert cs[..|consumed| + 1] == consumed + [todo[0]];
    }
  }

  /** Moving the first `n` handles ahead of the loop to the part it has passed. */
  lemma Advance(consumed: seq<Conn>, todo: seq<Conn>, n: int)
    requires 0 <= n <= |todo|
    ensures consumed + todo == (consumed + todo[..n]) + todo[n..]
  {
    assert todo == todo[..n] + todo[n..];
  }

  /** Recording one more reached handle. */
  lemma Reached(cs: seq<Conn>, failing: set<Conn>, visited: seq<Conn>, todo: seq<Conn>, n: int)
    requires |todo| > 0 && Visit(cs, failing) == visited + Visit(todo, failing)
    requires n == (if todo[0] in failing && |todo| >= 2 then 2 else 1)
    ensures Visit(cs, failing) == (visited + [todo[0]]) + Visit(todo[n..], failing)
  {
    assert todo[if |todo| >= 2 then 2 else 1..] == todo[n..] || todo[0] !in failing;
    assert Visit(todo, failing) == [todo[0]] + Visit(todo[n..], failing);
    Assoc(visited, [todo[0]], Visit(todo[n..], failing));
  }

  lemma DeliveredOne(visited: seq<Conn>, c: Conn, failing: set<Conn>)
    ensures Keep(visited + [c], failing) == Keep(visited, failing) + (if c in failing then [] else [c])
  {
    KeepConcat(visited, [c], failing);
    assert [c][1..] == [];
  }

  /** The passed part after a successful send: one more handle kept. */
  lemma PassedDelivered(consumed: seq<Conn>, removed: set<Conn>, c: Conn)
    requires c !in removed
    ensures Keep(consumed + [c], removed) == Keep(consumed, removed) + [c]
  {
    KeepConcat(consumed, [c], removed);
    assert [c][1..] == [];
  }

  /** The passed part after a failed send: the failed handle dropped, its successor kept. */
  lemma PassedFailed(consumed: seq<Conn>, removed: set<Conn>, todo: seq<Conn>, n: int)
    requires |todo| > 0 && todo[0] !in consumed
    requires n == (if |todo| >= 2 then 2 else 1)
    requires n == 2 ==> todo[1] !in removed && todo[1] != todo[0]
    ensures Keep(consumed + todo[..n], removed + {todo[0]}) == Keep(consumed, removed) + todo[1..n]
  {
    var c := todo[0];
    KeepIgnoresAbsent(consumed, removed, c);
    KeepConcat(consumed, todo[..n], removed + {c});
    if n == 2 {
      assert todo[..2] == [c] + [todo[1]];
      KeepConcat([c], [todo[1]], removed + {c});
      assert [c][1..] == [] && [todo[1]][1..] == [];
      assert todo[1..2] == [todo[1]];
    } else {
      assert todo[..1] == [c] && todo[1..1] == [];
      assert [c][1..] == [];
    }
  }

  /** The list being iterated after `remove`: the failed handle is gone. */
  lemma LiveFailed(kept: seq<Conn>, todo: seq<Conn>, n: int)
    requires |todo| > 0 && todo[0] !in kept && 1 <= n <= |todo|
    ensures RemoveFirst(kept + todo, todo[0]) == (kept + todo[1..n]) + todo[n..]
  {
    assert todo == [todo[0]] + todo[1..];
    Assoc(kept, [todo[0]], todo[1..]);
    RemoveFirstOfList(kept, todo[0], todo[1..]);
    assert todo[1..] == todo[1..n] + todo[n..];
    Assoc(kept, todo[1..n], todo[n..]);
  }

  /** The removed set and the reached handles after reaching `c`. */
  lemma Bookkeeping(visited: seq<Conn>, removed: set<Conn>, failing: set<Conn>,
                    consumed: seq<Conn>, c: Conn, passed: seq<Conn>)
    requires removed == (set x | x in visited && x in failing)
    requires forall x :: x in visited ==> x in consumed
    requires c in passed && forall x :: x in consumed ==> x in passed
    ensures (if c in failing then removed + {c} else removed) == (set x | x in visited + [c] && x in failing)
    ensures forall x :: x in visited + [c] ==> x in passed
  {
  }

  /** A successful `send_json` at index `i`. */
  lemma StepDelivered(cs: seq<Conn>, failing: set<Conn>, live: seq<Conn>, i: int,
                      consumed: seq<Conn>, todo: seq<Conn>,
                      visited: seq<Conn>, removed: set<Conn>, delivered: seq<Conn>)
    requires LoopState(cs, failing, live, i, consumed, todo, visited, removed, delivered)
    requires i < |live| && live[i] !in failing
    ensures |todo| > 0 && live[i] == todo[0]
    ensures LoopState(cs, failing, live, i + 1, consumed + todo[..1], todo[1..],
                      visited + [todo[0]], removed, delivered + [todo[0]])
  {
    AheadIsFresh(consumed, todo);
    var c := todo[0];
    assert todo[..1] == [c];
    Advance(consumed, todo, 1);
    assert live == (Keep(consumed, removed) + todo[..1]) + todo[1..] by {
      Advance(Keep(consumed, removed), todo, 1);
    }
    PassedDelivered(consumed, removed, c);
    Reached(cs, failing, visited, todo, 1);
    DeliveredOne(visited, c, failing);
    Bookkeeping(visited, removed, failing, consumed, c, consumed + todo[..1]);
  }

  /** A `send_json` at index `i` that raises: the connection is removed from the
      list being iterated and the index still advances past its successor. */
  lemma StepFailed(cs: seq<Conn>, failing: set<Conn>, live: seq<Conn>, i: int,
                   consumed: seq<Conn>, todo: seq<Conn>,
                   visited: seq<Conn>, removed: set<Conn>, delivered: seq<Conn>)
    requires LoopState(cs, failing, live, i, consumed, todo, visited, removed, delivered)
    requires i < |live| && live[i] in failing
    ensures |todo| > 0 && live[i] == todo[0] && live[i] in live
    ensures var n := if |todo| >= 2 then 2 else 1;
            LoopState(cs, failing, RemoveFirst(live, todo[0]), i + 1, consumed + todo[..n], todo[n..],
                      visited + [todo[0]], removed + {todo[0]}, delivered)
  {
    AheadIsFresh(consumed, todo);
    var c := todo[0];
    var n := if |todo| >= 2 then 2 else 1;
    var kept := Keep(consumed, removed);
    KeepMembers(consumed, removed);
    LiveFailed(kept, todo, n);
    PassedFailed(consumed, removed, todo, n);
    Advance(consumed, todo, n);
    Reached(cs, failing, visited, todo, n);
    DeliveredOne(visited, c, failing);
    assert todo[..n][0] == c;
    Bookkeeping(visited, removed, failing, consumed, c, consumed + todo[..n]);
  }

  /** The dispatch loop as written: `for connection in active_connections:` with
      `active_connections.remove(connection)` when `send_json` raises. Returns the
      registry afterwards and the connections that received the event, in order. */
  method DispatchAsWritten(cs: seq<Conn>, failing: set<Conn>) returns (remaining: seq<Conn>, delivered: seq<Conn>)
    requires Distinct(cs)
    ensures delivered == Keep(Visit(cs, failing), failing)
    ensures remaining == Keep(cs, Removed(cs, failing))
  {
    var live := cs;
    var i := 0;
    delivered := [];
    ghost var consumed: seq<Conn> := [];
    ghost var todo := cs;
    ghost var visited: seq<Conn> := [];
    ghost var removed: set<Conn> := {};
    assert cs == consumed + todo;
    while i < |live|
      invariant LoopState(cs, failing, live, i, consumed, todo, visited, removed, delivered)
      decreases |live| - i
    {
      var c := live[i];
      if c in failing {
        // send_json raised: remove it from the list being iterated
        StepFailed(cs, failing, live, i, consumed, todo, visited, removed, delivered);
        live := RemoveFirst(live, c);
        var n := if |todo| >= 2 then 2 else 1;
        consumed, todo := consumed + todo[..n], todo[n..];
        visited := visited + [c];
        removed := removed + {c};
      } else {
        StepDelivered(cs, failing, live, i, consumed, todo, visited, removed, delivered);
        delivered := delivered + [c];
        consumed, todo := consumed + todo[..1], todo[1..];
        visited := visited + [c];
      }
      i := i + 1;
    }
    assert todo == [] && consumed == cs;
    assert visited == Visit(cs, failing);
    assert removed == Removed(cs, failing);
    remaining := live;
  }

  /** One iteration over the snapshot. */
  lemma SnapshotStep(cs: seq<Conn>, failing: set<Conn>, k: int, live: seq<Conn>)
    requires Distinct(cs) && 0 <= k < |cs|
    requires live == Keep(cs[..k], failing) + cs[k..]
    ensures cs[..k + 1] == cs[..k] + [cs[k]]
    ensures Keep(cs[..k + 1], failing) == Keep(cs[..k], failing) + (if cs[k] in failing then [] else [cs[k]])
    ensures cs[k] in failing ==>
              (cs[k] in live && RemoveFirst(live, cs[k]) == Keep(cs[..k + 1], failing) + cs[k + 1..])
    ensures cs[k] !in failing ==> live == Keep(cs[..k + 1], failing) + cs[k + 1..]
  {
    var c := cs[k];
    DistinctAt(cs, k);
    assert cs[..k + 1] == cs[..k] + [c];
    KeepConcat(cs[..k], [c], failing);
    assert [c][1..] == [];
    KeepMembers(cs[..k], failing);
    assert cs[k..] == [c] + cs[k + 1..];
    if c in failing {
      LiveFailed(Keep(cs[..k], failing), cs[k..], 1);
      assert cs[k..][1..1] == [] && cs[k..][1..] == cs[k + 1..];
    } else {
      Assoc(Keep(cs[..k], failing), [c], cs[k + 1..]);
    }
  }

  /** Dropping a subset first does not change what dropping the whole set keeps. */
  lemma {:induction false} KeepAbsorbs(cs: seq<Conn>, small: set<Conn>, large: set<Conn>)
    requires small <= large
    ensures Keep(Keep(cs, small), large) == Keep(cs, large)
  {
    if |cs| > 0 {
      KeepAbsorbs(cs[1..], small, large);
      var head := if cs[0] in small then [] else [cs[0]];
      KeepConcat(head, Keep(cs[1..], small), large);
    }
  }

  /** As written, a dispatch never unregisters a connection whose send succeeded, the
      healthy connections stay in their original order, and a failing connection is
      unregistered exactly when the loop reached it. */
  lemma AsWrittenKeepsHealthy(cs: seq<Conn>, failing: set<Conn>)
    requires Distinct(cs)
    ensures forall c :: c in Keep(cs, Removed(cs, failing)) <==>
              c in cs && (c !in failing || c !in Visit(cs, failing))
    ensures Keep(Keep(cs, Removed(cs, failing)), failing) == Keep(cs, failing)
  {
    KeepMembers(cs, Removed(cs, failing));
    KeepAbsorbs(cs, Removed(cs, failing), failing);
  }

  /** The intended fan-out: iterate a snapshot, remove failed connections from the live list. */
  method DispatchSnapshot(cs: seq<Conn>, failing: set<Conn>) returns (remaining: seq<Conn>, delivered: seq<Conn>)
    requires Distinct(cs)
    ensures forall c :: c in delivered <==> c in cs && c !in failing
    ensures delivered == Keep(cs, failing)
    ensures remaining == delivered
  {
    var snapshot := cs;
    var live := cs;
    delivered := [];
    for k := 0 to |snapshot|
      invariant live == Keep(cs[..k], failing) + cs[k..]
      invariant delivered == Keep(cs[..k], failing)
    {
      var c := snapshot[k];
      SnapshotStep(cs, failing, k, live);
      if c in failing {
        live := RemoveFirst(live, c);
      } else {
        delivered := delivered + [c];
      }
    }
    assert cs[..|cs|] == cs;
    KeepMembers(cs, failing);
    remaining := live;
  }

  /** As written, a healthy client right after a failing one misses the reminder,
      while the snapshot dispatch reaches it. */
  lemma SuccessorOfFailureMissed()
    ensures Visit([1, 2], {1}) == [1]
    ensures Keep(Visit([1, 2], {1}), {1}) == []
    ensures Keep([1, 2], Removed([1, 2], {1})) == [2]
    ensures Keep([1, 2], {1}) == [2]
  {
    assert [1, 2][2..] == [];
    assert Visit([1, 2], {1}) == [1];
    assert Removed([1, 2], {1}) == {1};
    assert [1, 2][1..] == [2];
  }
}
