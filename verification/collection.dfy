/**
 * The list handling shared by the students, feedback, maintenance and documents
 * pages (and the header's notification list): an ordered list of records keyed by
 * a numeric id, changed only by whole-list array operations.
 */
module Collection {
  import opened Seqs

  /**
   * One record of a page's list. Every page keeps `id` and a status-like field;
   * `data` holds the page's remaining fields.
   */
  datatype Record<S, D> = Record(id: int, status: S, data: D)

  /** Some record of `s` carries `id`. */
  predicate HasId<S, D>(s: seq<Record<S, D>>, id: int)
  {
    exists i :: 0 <= i < |s| && s[i].id == id
  }

  /** No two records of `s` share an id. */
  ghost predicate UniqueIds<S, D>(s: seq<Record<S, D>>)
  {
    forall i, j :: 0 <= i < j < |s| ==> s[i].id != s[j].id
  }

  /** `Math.max(...s.map(r => r.id))` on a non-empty list. */
  function MaxId<S, D>(s: seq<Record<S, D>>): (m: int)
    requires |s| > 0
    ensures forall i :: 0 <= i < |s| ==> s[i].id <= m
    ensures HasId(s, m)
    decreases |s|
  {
    if |s| == 1 then s[0].id
    else
      var rest := MaxId(s[1..]);
      assert forall i :: 1 <= i < |s| ==> s[i] == s[1..][i - 1];
      if s[0].id >= rest then s[0].id else rest
  }

  /** The id a new record receives: one more than the largest id, or 1 for an empty list. */
  function NextId<S, D>(s: seq<Record<S, D>>): (r: int)
    ensures forall i :: 0 <= i < |s| ==> s[i].id < r
    ensures !HasId(s, r)
    ensures |s| == 0 ==> r == 1
    ensures |s| > 0 ==> HasId(s, r - 1)
  {
    if |s| > 0 then MaxId(s) + 1 else 1
  }

  /** Appends a record with a fresh id, `[...s, { id: NextId(s), ... }]`. */
  function Create<S, D>(s: seq<Record<S, D>>, status: S, data: D): (r: seq<Record<S, D>>)
    ensures |r| == |s| + 1
    ensures r[..|s|] == s
    ensures r[|s|].id == NextId(s) && !HasId(s, r[|s|].id)
    ensures r[|s|].status == status && r[|s|].data == data
    ensures UniqueIds(s) ==> UniqueIds(r)
  {
    s + [Record(NextId(s), status, data)]
  }

  /** `s.map(r => r.id === id ? { ...r, status: v } : r)`. */
  function SetStatus<S, D>(s: seq<Record<S, D>>, id: int, v: S): (r: seq<Record<S, D>>)
    ensures |r| == |s|
    ensures forall i :: 0 <= i < |s| ==> r[i].id == s[i].id && r[i].data == s[i].data
    ensures forall i :: 0 <= i < |s| && s[i].id == id ==> r[i].status == v
    ensures forall i :: 0 <= i < |s| && s[i].id != id ==> r[i] == s[i]
    ensures !HasId(s, id) ==> r == s
    decreases |s|
  {
    if |s| == 0 then []
    else
      var head := if s[0].id == id then s[0].(status := v) else s[0];
      var rest := SetStatus(s[1..], id, v);
      assert forall i :: 1 <= i < |s| ==> s[i] == s[1..][i - 1] && ([head] + rest)[i] == rest[i - 1];
      [head] + rest
  }

  /** Setting the same status on the same id a second time changes nothing. */
  lemma SetStatusIdempotent<S, D>(s: seq<Record<S, D>>, id: int, v: S)
    ensures SetStatus(SetStatus(s, id, v), id, v) == SetStatus(s, id, v)
  {
    var once := SetStatus(s, id, v);
    var twice := SetStatus(once, id, v);
    forall i | 0 <= i < |s| ensures twice[i] == once[i] {
      if s[i].id == id {
        assert once[i] == s[i].(status := v);
      }
    }
  }

  /** `s.map(r => ({ ...r, status: v }))`. */
  function SetAllStatus<S, D>(s: seq<Record<S, D>>, v: S): (r: seq<Record<S, D>>)
    ensures |r| == |s|
    ensures forall i :: 0 <= i < |s| ==> r[i].id == s[i].id && r[i].data == s[i].data
    ensures forall i :: 0 <= i < |r| ==> r[i].status == v
    decreases |s|
  {
    if |s| == 0 then []
    else
      var rest := SetAllStatus(s[1..], v);
      assert forall i :: 1 <= i < |s| ==> s[i] == s[1..][i - 1] && ([s[0].(status := v)] + rest)[i] == rest[i - 1];
      [s[0].(status := v)] + rest
  }

  /** `s.map(r => r.id === x.id ? x : r)`: every record carrying `x`'s id becomes `x`. */
  function ReplaceById<S, D>(s: seq<Record<S, D>>, x: Record<S, D>): (r: seq<Record<S, D>>)
    ensures |r| == |s|
    ensures forall i :: 0 <= i < |s| ==> r[i].id == s[i].id
    ensures forall i :: 0 <= i < |s| && s[i].id == x.id ==> r[i] == x
    ensures forall i :: 0 <= i < |s| && s[i].id != x.id ==> r[i] == s[i]
    ensures !HasId(s, x.id) ==> r == s
    ensures UniqueIds(s) ==> UniqueIds(r)
    decreases |s|
  {
    if |s| == 0 then []
    else
      var head := if s[0].id == x.id then x else s[0];
      var rest := ReplaceById(s[1..], x);
      assert forall i :: 1 <= i < |s| ==> s[i] == s[1..][i - 1] && ([head] + rest)[i] == rest[i - 1];
      [head] + rest
  }

  /** Number of records of `s` that carry `id`. */
  function Occurrences<S, D>(s: seq<Record<S, D>>, id: int): nat
  {
    Count(s, (x: Record<S, D>) => x.id == id)
  }

  /** `s.filter(r => r.id !== id)`. */
  function RemoveById<S, D>(s: seq<Record<S, D>>, id: int): (r: seq<Record<S, D>>)
    ensures !HasId(r, id)
    ensures forall i :: 0 <= i < |r| ==> r[i] in s
    ensures forall i :: 0 <= i < |s| && s[i].id != id ==> s[i] in r
    ensures IsSubseq(r, s)
    ensures |r| == |s| - Occurrences(s, id)
    ensures !HasId(s, id) ==> r == s
  {
    var keep := (x: Record<S, D>) => x.id != id;
    var r := Filter(s, keep);
    CountComplement(s, keep, (x: Record<S, D>) => x.id == id);
    if !HasId(s, id) then
      FilterKeepsAll(s, keep);
      r
    else
      r
  }

  /** Dropping the first record keeps ids unique. */
  lemma UniqueTail<S, D>(s: seq<Record<S, D>>)
    requires |s| > 0 && UniqueIds(s)
    ensures UniqueIds(s[1..])
  {
    forall i, j | 0 <= i < j < |s| - 1 ensures s[1..][i].id != s[1..][j].id {
      assert s[1..][i] == s[i + 1] && s[1..][j] == s[j + 1];
    }
  }

  /** One step of the filter behind `RemoveById`. */
  lemma RemoveByIdStep<S, D>(s: seq<Record<S, D>>, id: int)
    requires |s| > 0
    ensures s[0].id != id ==> RemoveById(s, id) == [s[0]] + RemoveById(s[1..], id)
    ensures s[0].id == id ==> RemoveById(s, id) == RemoveById(s[1..], id)
  {
    var keep := (x: Record<S, D>) => x.id != id;
    assert RemoveById(s, id) == Filter(s, keep);
    assert RemoveById(s[1..], id) == Filter(s[1..], keep);
  }

  /** Removing records keeps ids unique. */
  lemma {:induction false} RemoveByIdKeepsUnique<S, D>(s: seq<Record<S, D>>, id: int)
    requires UniqueIds(s)
    ensures UniqueIds(RemoveById(s, id))
    decreases |s|
  {
    if |s| > 0 {
      var rest := RemoveById(s[1..], id);
      UniqueTail(s);
      RemoveByIdKeepsUnique(s[1..], id);
      RemoveByIdStep(s, id);
      if s[0].id != id {
        var r := [s[0]] + rest;
        forall i, j | 0 <= i < j < |r| ensures r[i].id != r[j].id {
          if i == 0 {
            assert r[j] == rest[j - 1];
            assert rest[j - 1] in s[1..];
            var k :| 0 <= k < |s[1..]| && s[1..][k] == rest[j - 1];
            assert s[k + 1] == r[j];
          } else {
            assert r[i] == rest[i - 1] && r[j] == rest[j - 1];
          }
        }
      }
    }
  }

  /**
   * With ids unique and `t` in `s`, removing `t`'s id takes away `t` and nothing
   * else: the survivors together with `t` are exactly the records of `s`.
   */
  lemma {:induction false} RemovePresentRecord<S, D>(s: seq<Record<S, D>>, t: Record<S, D>)
    requires UniqueIds(s)
    requires t in s
    ensures multiset(RemoveById(s, t.id)) + multiset{t} == multiset(s)
    decreases |s|
  {
    assert s == [s[0]] + s[1..];
    UniqueTail(s);
    RemoveByIdStep(s, t.id);
    if s[0] == t {
      assert !HasId(s[1..], t.id) by {
        forall k | 0 <= k < |s[1..]| ensures s[1..][k].id != t.id {
          assert s[1..][k] == s[k + 1];
        }
      }
    } else {
      var k :| 0 <= k < |s| && s[k] == t;
      assert s[0].id != t.id;
      assert t in s[1..] by {
        assert s[1..][k - 1] == t;
      }
      RemovePresentRecord(s[1..], t);
    }
  }

  /** What an undo button does when clicked: nothing, or set the list to a captured value. */
  datatype UndoAction<R> = NoUndo | Restore(snapshot: seq<R>)

  /** The list after clicking undo, given the list current at the time of the click. */
  function RunUndo<R>(a: UndoAction<R>, current: seq<R>): seq<R>
  {
    match a
    case NoUndo => current
    case Restore(snapshot) => snapshot
  }

  /** A delete handler's effect: the new list, and the undo offered with the toast. */
  datatype Deletion<R> = Deletion(list: seq<R>, undo: UndoAction<R>)

  /**
   * The delete-with-undo of the feedback, maintenance and documents pages: remove
   * the target's id, and let undo put back the post-delete list with the target
   * appended, whatever the list has become in between.
   */
  function SnapshotDelete<S, D>(s: seq<Record<S, D>>, target: Record<S, D>): (r: Deletion<Record<S, D>>)
    ensures !HasId(r.list, target.id)
    ensures IsSubseq(r.list, s)
    ensures |r.list| == |s| - Occurrences(s, target.id)
    ensures r.undo.Restore? && |r.undo.snapshot| == |r.list| + 1
    ensures r.undo.snapshot[..|r.list|] == r.list && r.undo.snapshot[|r.list|] == target
  {
    var remaining := RemoveById(s, target.id);
    assert (remaining + [target])[..|remaining|] == remaining;
    Deletion(remaining, Restore(remaining + [target]))
  }

  /**
   * Deleting a record of a list with unique ids and then undoing gives back the
   * same records, ids still unique, with the restored record moved to the end;
   * the list current at click time plays no part.
   */
  lemma DeleteThenUndo<S, D>(s: seq<Record<S, D>>, target: Record<S, D>, current: seq<Record<S, D>>)
    requires UniqueIds(s)
    requires target in s
    ensures var u := RunUndo(SnapshotDelete(s, target).undo, current);
      && multiset(u) == multiset(s)
      && |u| == |s|
      && u[|s| - 1] == target
      && UniqueIds(u)
  {
    var remaining := RemoveById(s, target.id);
    var u := RunUndo(SnapshotDelete(s, target).undo, current);
    assert u == remaining + [target];
    RemovePresentRecord(s, target);
    assert multiset(u) == multiset(s);
    assert |u| == |s| by {
      assert |multiset(u)| == |u| && |multiset(s)| == |s|;
    }
    RemoveByIdKeepsUnique(s, target.id);
    forall i, j | 0 <= i < j < |u| ensures u[i].id != u[j].id {
      if j == |u| - 1 {
        assert u[i] == remaining[i];
        assert !HasId(remaining, target.id);
      } else {
        assert u[i] == remaining[i] && u[j] == remaining[j];
      }
    }
  }
}
