/**
 * The timer queue of delayed tasks (`timer_queue.rs`, in both the newer executor
 * and the older one).  It is a doubly-linked list of TCBs threaded through their
 * `OSTimerNext`/`OSTimerPrev` fields and sorted by `expires_at`, where u64::MAX
 * means "not waiting".  TCBs are named by their slot in the task arena: the
 * queue holds, per slot, the TCB's `expires_at` and its two links.  The ghost
 * sequence `items` is the list from the head.
 */
module TimerQueue {
  import opened Wrappers
  import opened Config

  /** `u64::MAX`: the expiry of a task that is not waiting. */
  const NEVER: nat := U64_MAX

  /** The keys of `ids`, in list order. */
  ghost function KeysOf(ids: seq<nat>, expires: seq<nat>): (r: seq<nat>)
    requires Slots(ids, |expires|)
    ensures |r| == |ids| && forall i :: 0 <= i < |ids| ==> r[i] == expires[ids[i]]
  {
    if ids == [] then [] else [expires[ids[0]]] + KeysOf(ids[1..], expires)
  }

  ghost predicate Sorted(keys: seq<nat>)
  {
    forall i, j :: 0 <= i < j < |keys| ==> keys[i] <= keys[j]
  }

  /**
   * How many keys at the front are at most `key`.  It is where `update` puts a
   * new key (before the first key strictly larger, so after all equal ones) and
   * how many entries `dequeue_expired` takes at time `key`.
   */
  function FrontAtMost(keys: seq<nat>, key: nat): (k: nat)
    ensures k <= |keys|
  {
    if keys == [] || keys[0] > key then 0 else 1 + FrontAtMost(keys[1..], key)
  }

  /** Every key before FrontAtMost is at most `key`; the one at it, if any, is larger. */
  lemma {:induction false} FrontAtMostSpec(keys: seq<nat>, key: nat)
    ensures forall i :: 0 <= i < FrontAtMost(keys, key) ==> keys[i] <= key
    ensures FrontAtMost(keys, key) < |keys| ==> keys[FrontAtMost(keys, key)] > key
  {
    if keys != [] && keys[0] <= key {
      FrontAtMostSpec(keys[1..], key);
    }
  }

  /** FrontAtMost is the one index with only keys at most `key` before it and a larger one at it (or the end). */
  lemma {:induction false} FrontAtMostUnique(keys: seq<nat>, key: nat, i: nat)
    requires i <= |keys| && (forall j :: 0 <= j < i ==> keys[j] <= key)
    requires i == |keys| || keys[i] > key
    ensures FrontAtMost(keys, key) == i
  {
    if i > 0 {
      FrontAtMostUnique(keys[1..], key, i - 1);
    }
  }

  /** Inserting at FrontAtMost keeps a sorted sequence sorted. */
  lemma InsertKeepsSorted(keys: seq<nat>, key: nat)
    requires Sorted(keys)
    ensures var k := FrontAtMost(keys, key); Sorted(keys[..k] + [key] + keys[k..])
  {
    FrontAtMostSpec(keys, key);
  }

  /** On a sorted sequence the keys at most `now` are exactly the first FrontAtMost ones. */
  lemma {:induction false} FrontAtMostSorted(keys: seq<nat>, now: nat)
    requires Sorted(keys)
    ensures forall i :: 0 <= i < |keys| ==> (i < FrontAtMost(keys, now) <==> keys[i] <= now)
  {
    if keys != [] && keys[0] <= now {
      FrontAtMostSorted(keys[1..], now);
      forall i | 1 <= i < |keys| ensures keys[1..][i - 1] == keys[i] { }
    }
  }

  /** Every entry names a slot of a table of length n. */
  ghost predicate Slots(items: seq<nat>, n: nat)
  {
    forall i :: 0 <= i < |items| ==> items[i] < n
  }

  /** No slot occurs twice. */
  ghost predicate Distinct(items: seq<nat>)
  {
    forall i, j :: 0 <= i < j < |items| ==> items[i] != items[j]
  }

  /** Each entry's forward link names the next entry, the last one's None. */
  ghost predicate NextOk(items: seq<nat>, nx: seq<Option<nat>>)
    requires Slots(items, |nx|)
  {
    forall i {:trigger nx[items[i]]} :: 0 <= i < |items| ==>
      nx[items[i]] == (if i + 1 < |items| then Some(items[i + 1]) else None)
  }

  /** Each entry's back link names the previous entry, the first one's None. */
  ghost predicate PrevOk(items: seq<nat>, pv: seq<Option<nat>>)
    requires Slots(items, |pv|)
  {
    forall i {:trigger pv[items[i]]} :: 0 <= i < |items| ==>
      pv[items[i]] == (if i == 0 then None else Some(items[i - 1]))
  }

  /**
   * The list `items` from `head`, spelled out by the link tables `nx` and `pv`:
   * every entry is a slot, no slot occurs twice, and each entry's links name its
   * neighbours.  Slots not in the list are unconstrained.
   */
  ghost predicate Links(items: seq<nat>, head: Option<nat>, nx: seq<Option<nat>>, pv: seq<Option<nat>>)
  {
    |nx| == |pv| && Slots(items, |nx|) && Distinct(items) &&
    head == (if items == [] then None else Some(items[0])) &&
    NextOk(items, nx) && PrevOk(items, pv)
  }

  /** Entry k of the list, or None past its end. */
  function At(items: seq<nat>, k: int): (r: Option<nat>)
    ensures r.Some? <==> 0 <= k < |items|
  {
    if 0 <= k < |items| then Some(items[k]) else None
  }

  /** `p`, not in the list, inserted at k: still slots, still distinct. */
  lemma InsertDistinct(items: seq<nat>, n: nat, k: nat, p: nat)
    requires Slots(items, n) && Distinct(items) && k <= |items| && p < n && p !in items
    ensures Slots(items[..k] + [p] + items[k..], n) && Distinct(items[..k] + [p] + items[k..])
  {
    var items' := items[..k] + [p] + items[k..];
    forall i | 0 <= i < |items'|
      ensures items'[i] == (if i < k then items[i] else if i == k then p else items[i - 1])
    {
    }
  }

  lemma InsertNext(items: seq<nat>, k: nat, p: nat, nx: seq<Option<nat>>, nx': seq<Option<nat>>)
    requires Slots(items, |nx|) && Distinct(items) && NextOk(items, nx)
    requires k <= |items| && p < |nx| && p !in items && |nx'| == |nx|
    requires nx'[p] == At(items, k)
    requires 0 < k ==> nx'[items[k - 1]] == Some(p)
    requires forall q :: 0 <= q < |nx| && q != p && Some(q) != At(items, k - 1) ==> nx'[q] == nx[q]
    ensures Slots(items[..k] + [p] + items[k..], |nx'|)
    ensures NextOk(items[..k] + [p] + items[k..], nx')
  {
    var items' := items[..k] + [p] + items[k..];
    InsertDistinct(items, |nx|, k, p);
    forall i | 0 <= i < |items'|
      ensures nx'[items'[i]] == (if i + 1 < |items'| then Some(items'[i + 1]) else None)
    {
      if i < k - 1 {
        assert items'[i] == items[i] && items'[i + 1] == items[i + 1];
        assert items[i] != items[k - 1];
        assert nx[items[i]] == Some(items[i + 1]);
      } else if i == k - 1 {
        assert items'[i] == items[k - 1] && items'[i + 1] == p;
      } else if i == k {
        assert items'[i] == p;
        if k < |items| {
          assert items'[i + 1] == items[k];
        }
      } else {
        assert items'[i] == items[i - 1];
        assert Some(items[i - 1]) != At(items, k - 1) by {
          if k > 0 {
            assert items[i - 1] != items[k - 1];
          }
        }
        assert nx[items[i - 1]] == (if i < |items| then Some(items[i]) else None);
        if i + 1 < |items'| {
          assert items'[i + 1] == items[i];
        }
      }
    }
  }

  lemma InsertPrev(items: seq<nat>, k: nat, p: nat, pv: seq<Option<nat>>, pv': seq<Option<nat>>)
    requires Slots(items, |pv|) && Distinct(items) && PrevOk(items, pv)
    requires k <= |items| && p < |pv| && p !in items && |pv'| == |pv|
    requires pv'[p] == At(items, k - 1)
    requires k < |items| ==> pv'[items[k]] == Some(p)
    requires forall q :: 0 <= q < |pv| && q != p && Some(q) != At(items, k) ==> pv'[q] == pv[q]
    ensures Slots(items[..k] + [p] + items[k..], |pv'|)
    ensures PrevOk(items[..k] + [p] + items[k..], pv')
  {
    var items' := items[..k] + [p] + items[k..];
    InsertDistinct(items, |pv|, k, p);
    forall i | 0 <= i < |items'|
      ensures pv'[items'[i]] == (if i == 0 then None else Some(items'[i - 1]))
    {
      if i < k {
        assert items'[i] == items[i];
        assert Some(items[i]) != At(items, k) by {
          if k < |items| {
            assert items[i] != items[k];
          }
        }
        assert pv[items[i]] == (if i == 0 then None else Some(items[i - 1]));
        if i > 0 {
          assert items'[i - 1] == items[i - 1];
        }
      } else if i == k {
        assert items'[i] == p;
        if k > 0 {
          assert items'[i - 1] == items[k - 1];
        }
      } else if i == k + 1 {
        assert items'[i] == items[k] && items'[i - 1] == p;
      } else {
        assert items'[i] == items[i - 1] && items'[i - 1] == items[i - 2];
        assert items[i - 1] != items[k];
        assert pv[items[i - 1]] == Some(items[i - 2]);
      }
    }
  }

  /**
   * Linking `p` between entries k-1 and k, as `update` does, gives the list with
   * `p` inserted at k: `p` gets the two neighbours as links, the neighbours point
   * at `p`, and no other slot's links change.
   */
  lemma LinkInsert(items: seq<nat>, head: Option<nat>, nx: seq<Option<nat>>, pv: seq<Option<nat>>,
                   k: nat, p: nat, nx': seq<Option<nat>>, pv': seq<Option<nat>>)
    requires Links(items, head, nx, pv) && k <= |items| && p < |nx| && p !in items
    requires |nx'| == |nx| && |pv'| == |nx|
    requires nx'[p] == At(items, k) && pv'[p] == At(items, k - 1)
    requires 0 < k ==> nx'[items[k - 1]] == Some(p)
    requires k < |items| ==> pv'[items[k]] == Some(p)
    requires forall q :: 0 <= q < |nx| && q != p && Some(q) != At(items, k - 1) ==> nx'[q] == nx[q]
    requires forall q :: 0 <= q < |nx| && q != p && Some(q) != At(items, k) ==> pv'[q] == pv[q]
    ensures Links(items[..k] + [p] + items[k..], if k == 0 then Some(p) else head, nx', pv')
    ensures forall q :: 0 <= q < |nx| && q !in items[..k] + [p] + items[k..] ==> nx'[q] == nx[q] && pv'[q] == pv[q]
  {
    var items' := items[..k] + [p] + items[k..];
    forall q | 0 <= q < |nx| && q !in items' ensures nx'[q] == nx[q] && pv'[q] == pv[q] {
      assert items'[k] == p;
      if k > 0 {
        assert items'[k - 1] == items[k - 1];
      }
      if k < |items| {
        assert items'[k + 1] == items[k];
      }
    }
    InsertDistinct(items, |nx|, k, p);
    InsertNext(items, k, p, nx, nx');
    InsertPrev(items, k, p, pv, pv');
    if k > 0 {
      assert (items[..k] + [p] + items[k..])[0] == items[0];
    }
  }

  /**
   * Unlinking the head, as `dequeue_expired` does, leaves the rest of the list
   * from the head's successor, once that successor's back link is cleared.
   */
  lemma LinkPopHead(items: seq<nat>, head: Option<nat>, nx: seq<Option<nat>>, pv: seq<Option<nat>>,
                    nx': seq<Option<nat>>, pv': seq<Option<nat>>)
    requires Links(items, head, nx, pv) && items != []
    requires |nx'| == |nx| && |pv'| == |nx|
    requires 1 < |items| ==> pv'[items[1]] == None
    requires forall q :: 0 <= q < |nx| && q != items[0] ==> nx'[q] == nx[q]
    requires forall q :: 0 <= q < |nx| && q != items[0] && Some(q) != At(items, 1) ==> pv'[q] == pv[q]
    ensures Links(items[1..], nx[items[0]], nx', pv')
  {
    var items' := items[1..];
    forall i | 0 <= i < |items'| ensures items'[i] == items[i + 1] && items'[i] != items[0] {
      assert items[0] != items[i + 1];
    }
    forall i | 0 <= i < |items'|
      ensures nx'[items'[i]] == (if i + 1 < |items'| then Some(items'[i + 1]) else None)
    {
      assert nx[items[i + 1]] == (if i + 2 < |items| then Some(items[i + 2]) else None);
    }
    forall i | 0 <= i < |items'|
      ensures pv'[items'[i]] == (if i == 0 then None else Some(items'[i - 1]))
    {
      if i > 0 {
        assert items[i + 1] != items[1];
        assert pv[items[i + 1]] == Some(items[i]);
      }
    }
    assert nx[items[0]] == At(items, 1);
  }

  /** Entry k dropped: still slots, still distinct. */
  lemma RemoveDistinct(items: seq<nat>, n: nat, k: nat)
    requires Slots(items, n) && Distinct(items) && k < |items|
    ensures Slots(items[..k] + items[k + 1..], n) && Distinct(items[..k] + items[k + 1..])
  {
    var items' := items[..k] + items[k + 1..];
    forall i | 0 <= i < |items'| ensures items'[i] == items[if i < k then i else i + 1] && items'[i] != items[k] {
      assert items[k] != items[if i < k then i else i + 1];
    }
    forall i, j | 0 <= i < j < |items'| ensures items'[i] != items'[j] {
      assert items'[i] == items[if i < k then i else i + 1];
      assert items'[j] == items[if j < k then j else j + 1];
    }
  }

  lemma RemoveNext(items: seq<nat>, k: nat, nx: seq<Option<nat>>, nx': seq<Option<nat>>)
    requires Slots(items, |nx|) && Distinct(items) && NextOk(items, nx) && k < |items| && |nx'| == |nx|
    requires 0 < k ==> nx'[items[k - 1]] == At(items, k + 1)
    requires forall q :: 0 <= q < |nx| && q != items[k] && Some(q) != At(items, k - 1) ==> nx'[q] == nx[q]
    ensures Slots(items[..k] + items[k + 1..], |nx'|)
    ensures NextOk(items[..k] + items[k + 1..], nx')
  {
    var items' := items[..k] + items[k + 1..];
    RemoveDistinct(items, |nx|, k);
    forall i | 0 <= i < |items'|
      ensures nx'[items'[i]] == (if i + 1 < |items'| then Some(items'[i + 1]) else None)
    {
      if i < k - 1 {
        assert items[i] != items[k - 1];
        assert nx[items[i]] == Some(items[i + 1]);
      } else if i == k - 1 {
        if k + 1 < |items| {
          assert items'[i + 1] == items[k + 1];
        }
      } else {
        assert Some(items[i + 1]) != At(items, k - 1) by {
          if k > 0 {
            assert items[i + 1] != items[k - 1];
          }
        }
        assert nx[items[i + 1]] == (if i + 2 < |items| then Some(items[i + 2]) else None);
      }
    }
  }

  lemma RemovePrev(items: seq<nat>, k: nat, pv: seq<Option<nat>>, pv': seq<Option<nat>>)
    requires Slots(items, |pv|) && Distinct(items) && PrevOk(items, pv) && k < |items| && |pv'| == |pv|
    requires k + 1 < |items| ==> pv'[items[k + 1]] == At(items, k - 1)
    requires forall q :: 0 <= q < |pv| && q != items[k] && Some(q) != At(items, k + 1) ==> pv'[q] == pv[q]
    ensures Slots(items[..k] + items[k + 1..], |pv'|)
    ensures PrevOk(items[..k] + items[k + 1..], pv')
  {
    var items' := items[..k] + items[k + 1..];
    RemoveDistinct(items, |pv|, k);
    forall i | 0 <= i < |items'|
      ensures pv'[items'[i]] == (if i == 0 then None else Some(items'[i - 1]))
    {
      if i < k {
        assert Some(items[i]) != At(items, k + 1) by {
          if k + 1 < |items| {
            assert items[i] != items[k + 1];
          }
        }
        assert pv[items[i]] == (if i == 0 then None else Some(items[i - 1]));
      } else if i == k {
        if k > 0 {
          assert items'[i - 1] == items[k - 1];
        }
      } else {
        assert items[i + 1] != items[k + 1];
        assert pv[items[i + 1]] == Some(items[i]);
      }
    }
  }

  /**
   * Unlinking entry k, as `remove` does, leaves the list without it: its
   * predecessor (or the head) takes its successor and the successor takes its
   * predecessor.
   */
  lemma LinkRemove(items: seq<nat>, head: Option<nat>, nx: seq<Option<nat>>, pv: seq<Option<nat>>,
                   k: nat, nx': seq<Option<nat>>, pv': seq<Option<nat>>)
    requires Links(items, head, nx, pv) && k < |items|
    requires |nx'| == |nx| && |pv'| == |nx|
    requires 0 < k ==> nx'[items[k - 1]] == At(items, k + 1)
    requires k + 1 < |items| ==> pv'[items[k + 1]] == At(items, k - 1)
    requires forall q :: 0 <= q < |nx| && q != items[k] && Some(q) != At(items, k - 1) ==> nx'[q] == nx[q]
    requires forall q :: 0 <= q < |nx| && q != items[k] && Some(q) != At(items, k + 1) ==> pv'[q] == pv[q]
    ensures Links(items[..k] + items[k + 1..], if k == 0 then At(items, 1) else head, nx', pv')
    ensures forall q :: 0 <= q < |nx| && q !in items ==> nx'[q] == nx[q] && pv'[q] == pv[q]
  {
    forall q | 0 <= q < |nx| && q !in items ensures nx'[q] == nx[q] && pv'[q] == pv[q] {
      assert items[k] in items;
      if k > 0 {
        assert items[k - 1] in items;
      }
      if k + 1 < |items| {
        assert items[k + 1] in items;
      }
    }
    RemoveDistinct(items, |nx|, k);
    RemoveNext(items, k, nx, nx');
    RemovePrev(items, k, pv, pv');
  }

  /** What the links say about entry i: its neighbours, and the head is entry 0. */
  lemma LinkStep(items: seq<nat>, head: Option<nat>, nx: seq<Option<nat>>, pv: seq<Option<nat>>, i: nat)
    requires Links(items, head, nx, pv) && i < |items|
    ensures nx[items[i]] == At(items, i + 1) && pv[items[i]] == At(items, i - 1)
    ensures head == At(items, 0)
  {
  }

  /** The keys after inserting `p` at k are the old keys with p's key inserted at k. */
  lemma KeysInsert(items: seq<nat>, e: seq<nat>, k: nat, p: nat)
    requires (forall i :: 0 <= i < |items| ==> items[i] < |e|) && k <= |items| && p < |e|
    ensures KeysOf(items[..k] + [p] + items[k..], e) == KeysOf(items, e)[..k] + [e[p]] + KeysOf(items, e)[k..]
  {
    var items' := items[..k] + [p] + items[k..];
    var a, b := KeysOf(items', e), KeysOf(items, e)[..k] + [e[p]] + KeysOf(items, e)[k..];
    forall i | 0 <= i < |a| ensures a[i] == b[i] {
      if i < k {
        assert items'[i] == items[i];
      } else if i > k {
        assert items'[i] == items[i - 1];
      }
    }
  }

  /** Dropping the head drops its key, whatever the head's key now is. */
  lemma KeysPopHead(items: seq<nat>, e: seq<nat>, e': seq<nat>)
    requires Slots(items, |e|) && Distinct(items) && items != [] && |e'| == |e|
    requires forall q :: 0 <= q < |e| && q != items[0] ==> e'[q] == e[q]
    ensures KeysOf(items[1..], e') == KeysOf(items, e)[1..]
  {
    var a, b := KeysOf(items[1..], e'), KeysOf(items, e)[1..];
    forall i | 0 <= i < |a| ensures a[i] == b[i] {
      assert items[1..][i] == items[i + 1] != items[0];
    }
  }

  /** Dropping entry k drops its key, whatever the dropped slot's key now is. */
  lemma KeysRemove(items: seq<nat>, e: seq<nat>, e': seq<nat>, k: nat)
    requires (forall i :: 0 <= i < |items| ==> items[i] < |e|) && k < |items| && |e'| == |e|
    requires forall i, j :: 0 <= i < j < |items| ==> items[i] != items[j]
    requires forall q :: 0 <= q < |e| && q != items[k] ==> e'[q] == e[q]
    ensures KeysOf(items[..k] + items[k + 1..], e') == KeysOf(items, e)[..k] + KeysOf(items, e)[k + 1..]
  {
    var items' := items[..k] + items[k + 1..];
    var a, b := KeysOf(items', e'), KeysOf(items, e)[..k] + KeysOf(items, e)[k + 1..];
    forall i | 0 <= i < |a| ensures a[i] == b[i] {
      var i' := if i < k then i else i + 1;
      assert items'[i] == items[i'];
    }
  }

  /** The expiries `e` once every slot in `ws`, in order, has been set to NEVER. */
  function Cleared(e: seq<nat>, ws: seq<nat>): (r: seq<nat>)
    ensures |r| == |e|
  {
    if ws == [] then e
    else
      var r := Cleared(e, ws[..|ws| - 1]);
      if ws[|ws| - 1] < |r| then r[ws[|ws| - 1] := NEVER] else r
  }

  /** Exactly the slots in `ws` read NEVER; every other slot keeps its expiry. */
  lemma {:induction false} ClearedSpec(e: seq<nat>, ws: seq<nat>)
    ensures forall q :: 0 <= q < |e| ==> Cleared(e, ws)[q] == (if q in ws then NEVER else e[q])
  {
    if ws != [] {
      var init := ws[..|ws| - 1];
      ClearedSpec(e, init);
      assert ws == init + [ws[|ws| - 1]];
      assert forall q :: q in ws <==> q in init || q == ws[|ws| - 1];
    }
  }

  /** Clearing one more slot is one more update of the cleared expiries. */
  lemma ClearedSnoc(e: seq<nat>, ws: seq<nat>, c: nat)
    requires c < |e|
    ensures Cleared(e, ws + [c]) == Cleared(e, ws)[c := NEVER]
  {
    assert (ws + [c])[..|ws|] == ws;
  }

  /**
   * What `dequeue_expired` has done once its loop stops after d due keys, at
   * the end or at one that is not due: d is FrontAtMost, the woken tasks are
   * the first d entries, and the rest is sorted and not due.
   */
  lemma DequeueEnd(keys: seq<nat>, all: seq<nat>, woken: seq<nat>, d: nat, now: nat)
    requires Sorted(keys) && |keys| == |all| && d <= |all|
    requires |woken| == d && forall j :: 0 <= j < d ==> woken[j] == all[j]
    requires forall j :: 0 <= j < d ==> keys[j] <= now
    requires d == |keys| || keys[d] > now
    ensures d == FrontAtMost(keys, now) && woken == all[..d]
    ensures var rest := keys[d..]; Sorted(rest) && forall i :: 0 <= i < |rest| ==> rest[i] > now
  {
    FrontAtMostUnique(keys, now, d);
    FrontAtMostSorted(keys, now);
  }

  /**
   * Removing entry k from a list whose keys are sorted apart from that entry's
   * leaves the keys sorted.
   */
  lemma RemoveKeepsSorted(items: seq<nat>, e: seq<nat>, k: nat)
    requires Slots(items, |e|) && Distinct(items) && k < |items|
    requires forall i, j :: 0 <= i < j < |items| && items[i] != items[k] && items[j] != items[k] ==>
               e[items[i]] <= e[items[j]]
    ensures Sorted(KeysOf(items[..k] + items[k + 1..], e))
  {
    var keys := KeysOf(items, e);
    forall i, j | 0 <= i < j < |keys| && i != k && j != k ensures keys[i] <= keys[j] {
      assert items[i] != items[k] && items[j] != items[k];
    }
    SortedApartRemove(keys, k);
    KeysRemove(items, e, e, k);
  }

  /** Dropping the one key that may be out of place leaves a sorted sequence. */
  lemma SortedApartRemove(keys: seq<nat>, k: nat)
    requires k < |keys|
    requires forall i, j :: 0 <= i < j < |keys| && i != k && j != k ==> keys[i] <= keys[j]
    ensures Sorted(keys[..k] + keys[k + 1..])
  {
    var rest := keys[..k] + keys[k + 1..];
    forall i | 0 <= i < |rest| ensures rest[i] == keys[if i < k then i else i + 1] { }
  }

  /** Rewriting the expiry of a slot that is not in the list leaves the keys alone. */
  lemma KeysOutside(items: seq<nat>, e: seq<nat>, q: nat, v: nat)
    requires Slots(items, |e|) && q < |e| && q !in items
    ensures KeysOf(items, e[q := v]) == KeysOf(items, e)
  {
    var a, b := KeysOf(items, e[q := v]), KeysOf(items, e);
    forall i | 0 <= i < |items| ensures a[i] == b[i] {
      assert items[i] != q;
    }
  }

  /** Room for one more slot, unlinked, changes neither the links nor the keys. */
  lemma LinksGrow(items: seq<nat>, head: Option<nat>, nx: seq<Option<nat>>, pv: seq<Option<nat>>, e: seq<nat>, t: nat)
    requires Links(items, head, nx, pv) && |e| == |nx|
    ensures Links(items, head, nx + [None], pv + [None])
    ensures KeysOf(items, e + [t]) == KeysOf(items, e)
  {
    var a, b := KeysOf(items, e + [t]), KeysOf(items, e);
    forall i | 0 <= i < |items| ensures a[i] == b[i] && (nx + [None])[items[i]] == nx[items[i]] &&
                                        (pv + [None])[items[i]] == pv[items[i]] {
    }
  }

  /** In a list without repeats, entry k lies in the first n entries or in the rest, not both. */
  lemma SplitAt(items: seq<nat>, n: nat, k: nat)
    requires Distinct(items) && n <= |items| && k < |items|
    ensures k < n ==> items[k] in items[..n] && items[k] !in items[n..]
    ensures k >= n ==> items[k] !in items[..n] && items[k] in items[n..]
  {
    if k < n {
      assert items[k] == items[..n][k];
      forall j | 0 <= j < |items| - n ensures items[n..][j] != items[k] {
        assert items[n..][j] == items[n + j];
      }
    } else {
      assert items[k] == items[n..][k - n];
      forall j | 0 <= j < n ensures items[..n][j] != items[k] {
        assert items[..n][j] == items[j];
      }
    }
  }

  /**
   * What `dequeue_expired` does to each entry of a sorted queue: an entry due
   * at `now` leaves it (it is among the first FrontAtMost) and reads NEVER;
   * any other stays, with its expiry.  No slot gets any other expiry.
   */
  lemma DequeuedSplit(items: seq<nat>, e: seq<nat>, now: nat)
    requires Slots(items, |e|) && Distinct(items) && Sorted(KeysOf(items, e))
    ensures var n := FrontAtMost(KeysOf(items, e), now);
            var e' := Cleared(e, items[..n]);
            (forall q :: 0 <= q < |e'| ==> e'[q] == e[q] || e'[q] == NEVER) &&
            forall p :: p in items ==>
              if e[p] <= now then p !in items[n..] && e'[p] == NEVER
              else p in items[n..] && e'[p] == e[p]
  {
    var keys := KeysOf(items, e);
    var n := FrontAtMost(keys, now);
    var e' := Cleared(e, items[..n]);
    FrontAtMostSorted(keys, now);
    ClearedSpec(e, items[..n]);
    forall p | p in items
      ensures if e[p] <= now then p !in items[n..] && e'[p] == NEVER
              else p in items[n..] && e'[p] == e[p]
    {
      var k :| 0 <= k < |items| && items[k] == p;
      assert keys[k] == e[p];
      SplitAt(items, n, k);
    }
  }

  class TimerQueue {
    /** `expires_at` of the TCB in each arena slot. */
    var expires: seq<nat>
    /** `OSTimerNext` and `OSTimerPrev` of the TCB in each slot. */
    var next: seq<Option<nat>>
    var prev: seq<Option<nat>>
    var head: Option<nat>
    /** `set_time`: the expiry the alarm was last set for. */
    var setTime: nat
    ghost var items: seq<nat>

    /** The links spell out `items` from the head, both ways. */
    ghost predicate Linked()
      reads this
    {
      |expires| == |next| && Links(items, head, next, prev)
    }

    ghost predicate Valid()
      reads this
    {
      Linked() && Sorted(Keys())
    }

    /** The expiries along the list. */
    ghost function Keys(): (r: seq<nat>)
      reads this
      requires Slots(items, |expires|)
    {
      KeysOf(items, expires)
    }

    /** Sorted once `p`, whose expiry may have just been overwritten, is ignored. */
    ghost predicate SortedApartFrom(p: nat)
      reads this
      requires Linked()
    {
      forall i, j :: 0 <= i < j < |items| && items[i] != p && items[j] != p ==>
        expires[items[i]] <= expires[items[j]]
    }

    /** `TimerQueue::new` over `n` arena slots, all not waiting. */
    constructor (n: nat)
      ensures Valid() && items == [] && head == None && setTime == NEVER
      ensures |expires| == n && (forall i :: 0 <= i < n ==> expires[i] == NEVER)
      ensures |next| == n && (forall i :: 0 <= i < n ==> next[i] == None)
      ensures |prev| == n && (forall i :: 0 <= i < n ==> prev[i] == None)
    {
      expires := seq(n, _ => NEVER);
      next := seq(n, _ => None);
      prev := seq(n, _ => None);
      head := None;
      setTime := NEVER;
      items := [];
    }

    /**
     * A newly claimed TCB: its slot reads `expires_at` u64::MAX and has no
     * timer links, and the queue is unchanged.
     */
    method AddSlot() returns (p: nat)
      requires Valid()
      modifies this`expires, this`next, this`prev
      ensures Valid() && p == |old(expires)| && items == old(items) && head == old(head)
      ensures expires == old(expires) + [NEVER] && next == old(next) + [None] && prev == old(prev) + [None]
    {
      p := |expires|;
      LinksGrow(items, head, next, prev, expires, NEVER);
      expires := expires + [NEVER];
      next := next + [None];
      prev := prev + [None];
    }

    /**
     * `_embassy_time_schedule_wake(at)` on the task in slot `p`:
     * `expires_at := min(expires_at, at)`, so it never increases.  It does not
     * relink the task, so the queue stays sorted only if the task is not in it.
     */
    method ScheduleWake(p: nat, at: nat)
      requires Valid() && p < |expires|
      modifies this`expires
      ensures expires == old(expires)[p := if at < old(expires[p]) then at else old(expires[p])]
      ensures expires[p] <= old(expires[p]) && expires[p] <= at
      ensures Linked() && (p !in items ==> Valid())
    {
      var e := expires[p];
      if at < e {
        e := at;
      }
      if p !in items {
        KeysOutside(items, expires, p, e);
      }
      expires := expires[p := e];
    }

    /** The write `expires_at.set(t)` on the TCB in slot `p`. */
    method SetExpires(p: nat, t: nat)
      requires p < |expires|
      modifies this`expires
      ensures expires == old(expires)[p := t]
      ensures old(Linked()) ==> Linked()
      ensures old(Valid()) ==> SortedApartFrom(p)
    {
      expires := expires[p := t];
    }

    /** `next_expiration`: the head's expiry, the earliest one, or NEVER when empty. */
    method NextExpiration() returns (r: nat)
      requires Valid()
      ensures items == [] ==> r == NEVER
      ensures items != [] ==> r == expires[items[0]]
      ensures forall i :: 0 <= i < |items| ==> r <= expires[items[i]]
    {
      if head.Some? {
        r := expires[head.value];
        assert Keys()[0] == r;
        forall i | 0 <= i < |items| ensures r <= expires[items[i]] {
          assert Keys()[i] == expires[items[i]];
        }
      } else {
        r := NEVER;
      }
    }

    /**
     * `update`: a task whose expiry is NEVER is not inserted and NEVER is returned.
     * Otherwise the task goes before the first entry with a strictly later expiry,
     * and the result is the head's expiry, the earliest in the queue.  The task
     * must not be linked already: `update` does not check.
     */
    method Update(p: nat) returns (r: nat)
      requires Valid() && p < |expires| && p !in items
      modifies this`head, this`items, this`next, this`prev
      ensures Valid() && expires == old(expires)
      ensures expires[p] == NEVER ==> r == NEVER && items == old(items) && head == old(head) &&
                                      next == old(next) && prev == old(prev)
      ensures expires[p] != NEVER ==>
                var k := FrontAtMost(old(Keys()), expires[p]);
                items == old(items)[..k] + [p] + old(items)[k..] &&
                r == expires[items[0]] &&
                (forall i :: 0 <= i < |items| ==> r <= expires[items[i]])
      ensures forall q :: 0 <= q < |next| && q !in items ==> next[q] == old(next[q]) && prev[q] == old(prev[q])
    {
      var key := expires[p];
      if key == NEVER {
        return NEVER;
      }
      ghost var keys := Keys();
      ghost var k := FrontAtMost(keys, key);
      var cur, prv := FindSlot(key);
      LinkAt(p, k, cur, prv);
      assert Sorted(Keys()) && Keys() == keys[..k] + [key] + keys[k..] by {
        KeysInsert(old(items), expires, k, p);
        InsertKeepsSorted(keys, key);
      }
      r := expires[head.value];
      forall j | 0 <= j < |items| ensures r <= expires[items[j]] {
        assert Keys()[0] == r && Keys()[j] == expires[items[j]];
      }
    }

    /**
     * The search loop of `update`: walks from the head while the entry's expiry
     * is at most `key`, and stops at the first later one (or the end) with the
     * entry before it.
     */
    method FindSlot(key: nat) returns (cur: Option<nat>, prv: Option<nat>)
      requires Valid()
      ensures var k := FrontAtMost(Keys(), key);
              cur == At(items, k) && prv == At(items, k - 1)
    {
      ghost var keys := Keys();
      cur := head;
      prv := None;
      ghost var i := 0;
      while cur.Some? && expires[cur.value] <= key
        invariant 0 <= i <= |items|
        invariant cur == At(items, i) && prv == At(items, i - 1)
        invariant forall j :: 0 <= j < i ==> keys[j] <= key
        decreases |items| - i
      {
        LinkStep(items, head, next, prev, i);
        assert keys[i] == expires[cur.value];
        prv := cur;
        cur := next[cur.value];
        i := i + 1;
      }
      if cur.Some? {
        assert keys[i] == expires[cur.value];
      }
      FrontAtMostUnique(keys, key, i);
    }

    /** The link writes of `update`: `p` goes between `prv` and `cur`, entries k-1 and k. */
    method LinkAt(p: nat, ghost k: nat, cur: Option<nat>, prv: Option<nat>)
      requires Linked() && p < |next| && p !in items && k <= |items|
      requires cur == At(items, k) && prv == At(items, k - 1)
      modifies this`head, this`items, this`next, this`prev
      ensures Linked() && expires == old(expires)
      ensures items == old(items)[..k] + [p] + old(items)[k..]
      ensures forall q :: 0 <= q < |next| && q !in items ==> next[q] == old(next[q]) && prev[q] == old(prev[q])
    {
      ghost var nx0, pv0, h0 := next, prev, head;
      next := next[p := cur];
      prev := prev[p := prv];
      if cur.Some? {
        prev := prev[cur.value := Some(p)];
      }
      if prv.Some? {
        next := next[prv.value := Some(p)];
      } else {
        head := Some(p);
      }
      LinkInsert(items, h0, nx0, pv0, k, p, next, prev);
      items := items[..k] + [p] + items[k..];
    }

    /**
     * Unlinks entry k, the task in slot `p`, as `remove` does once it has found
     * it (and as `dequeue_expired` does for the head, with the same writes in a
     * different order): the predecessor, or the head, takes p's successor, the
     * successor takes p's predecessor, and p's own links are cleared.
     */
    method Unlink(p: nat, ghost k: nat)
      requires Linked() && k < |items| && items[k] == p
      modifies this`head, this`items, this`next, this`prev
      ensures Linked() && expires == old(expires)
      ensures items == old(items)[..k] + old(items)[k + 1..]
      ensures k == 0 ==> items == old(items)[1..]
      ensures head == (if k == 0 then At(old(items), 1) else old(head))
      ensures next[p] == None && prev[p] == None
      ensures forall q :: 0 <= q < |next| && q !in old(items) ==> next[q] == old(next[q]) && prev[q] == old(prev[q])
    {
      ghost var nx0, pv0, h0 := next, prev, head;
      LinkStep(items, head, next, prev, k);
      var pv := prev[p];
      var nx := next[p];
      next := next[p := None];
      prev := prev[p := None];
      if pv.Some? {
        next := next[pv.value := nx];
      } else {
        head := nx;
      }
      if nx.Some? {
        prev := prev[nx.value := pv];
      }
      assert next[p] == None && prev[p] == None by {
        if pv.Some? {
          assert items[k - 1] != p;
        }
        if nx.Some? {
          assert items[k + 1] != p;
        }
      }
      LinkRemove(items, h0, nx0, pv0, k, next, prev);
      assert k == 0 ==> items[..k] + items[k + 1..] == items[1..];
      items := items[..k] + items[k + 1..];
    }

    /**
     * `dequeue_expired(now)`: unlinks, from the head, every task due at `now`, in
     * queue order; each gets expiry NEVER and both links cleared.  The tasks are
     * returned in that order for the caller's `on_task`.  Every task left in the
     * queue expires after `now`.
     */
    method DequeueExpired(now: nat) returns (woken: seq<nat>)
      requires Valid()
      modifies this`head, this`items, this`expires, this`next, this`prev
      ensures Valid()
      ensures var n := FrontAtMost(old(Keys()), now);
              woken == old(items)[..n] && items == old(items)[n..]
      ensures forall i :: 0 <= i < |items| ==> expires[items[i]] > now
      ensures expires == Cleared(old(expires), woken)
      ensures forall q :: 0 <= q < |expires| ==> expires[q] == old(expires)[q] || expires[q] == NEVER
      ensures forall p :: p in old(items) ==>
                if old(expires)[p] <= now then p !in items && expires[p] == NEVER
                else p in items && expires[p] == old(expires)[p]
    {
      ghost var all, e0 := items, expires;
      ghost var d;
      woken, d := PopExpired(now);
      DequeuedSplit(all, e0, now);
      assert woken == all[..d] && items == all[d..] && expires == Cleared(e0, all[..d]);
    }

    /**
     * The loop of `dequeue_expired`: the head is popped while its expiry is
     * not after `now`; the `d` popped tasks are the list's first `d`, exactly
     * the run of keys not after `now`.
     */
    method PopExpired(now: nat) returns (woken: seq<nat>, ghost d: nat)
      requires Valid()
      modifies this`head, this`items, this`expires, this`next, this`prev
      ensures Valid()
      ensures d == FrontAtMost(old(Keys()), now) && d <= |old(items)|
      ensures woken == old(items)[..d] && items == old(items)[d..]
      ensures expires == Cleared(old(expires), woken)
      ensures forall i :: 0 <= i < |items| ==> expires[items[i]] > now
      ensures old(Keys()) == KeysOf(old(items), old(expires))
    {
      ghost var keys, all := Keys(), items;
      woken, d := PopWhileDue(now);
      DequeueEnd(keys, all, woken, d, now);
      assert Sorted(Keys());
      forall i | 0 <= i < |items| ensures expires[items[i]] > now {
        assert Keys()[i] == keys[d..][i];
      }
    }

    /** The bare loop: pops the head while the queue has one that is due. */
    method PopWhileDue(now: nat) returns (woken: seq<nat>, ghost d: nat)
      requires Linked()
      modifies this`head, this`items, this`expires, this`next, this`prev
      ensures Linked() && d <= |old(items)| && items == old(items)[d..]
      ensures |woken| == d && forall j :: 0 <= j < d ==> woken[j] == old(items)[j]
      ensures Keys() == old(Keys())[d..]
      ensures forall j :: 0 <= j < d ==> old(Keys())[j] <= now
      ensures d == |old(items)| || old(Keys())[d] > now
      ensures expires == Cleared(old(expires), woken)
    {
      ghost var keys, all, e0 := Keys(), items, expires;
      woken := [];
      d := 0;
      while head.Some? && expires[head.value] <= now
        invariant Linked() && |keys| == |all|
        invariant 0 <= d <= |all| && items == all[d..]
        invariant |woken| == d && forall j :: 0 <= j < d ==> woken[j] == all[j]
        invariant Keys() == keys[d..]
        invariant forall j :: 0 <= j < d ==> keys[j] <= now
        invariant expires == Cleared(e0, woken)
        decreases |items|
      {
        assert Keys()[0] == keys[d];
        var c := PopHead();
        assert all[d..][1..] == all[d + 1..] && keys[d..][1..] == keys[d + 1..];
        ClearedSnoc(e0, woken, c);
        woken := woken + [c];
        d := d + 1;
      }
      assert d < |all| ==> Keys()[0] == keys[d];
    }

    /** One step of `dequeue_expired`: the head gets expiry NEVER and is unlinked. */
    method PopHead() returns (c: nat)
      requires Linked() && items != []
      modifies this`head, this`items, this`expires, this`next, this`prev
      ensures c == old(items)[0] && items == old(items)[1..]
      ensures Linked() && expires == old(expires)[c := NEVER]
      ensures Keys() == old(Keys())[1..]
    {
      c := head.value;
      SetExpires(c, NEVER);
      Unlink(c, 0);
      KeysPopHead(old(items), old(expires), expires);
    }

    /**
     * `remove` (newer executor only): a task that is not in the queue, or an empty
     * queue, leaves everything as it was; a present task is unlinked, the rest
     * keep their order, and its links are cleared.  Its expiry is not read, so it
     * may already have been overwritten by the caller.
     */
    method Remove(p: nat)
      requires Linked() && p < |next| && SortedApartFrom(p)
      modifies this`head, this`items, this`next, this`prev
      ensures Valid() && expires == old(expires) && p !in items
      ensures p !in old(items) ==> items == old(items) && head == old(head) && next == old(next) && prev == old(prev)
      ensures p in old(items) ==>
                (exists k :: 0 <= k < |old(items)| && old(items)[k] == p &&
                             items == old(items)[..k] + old(items)[k + 1..]) &&
                next[p] == None && prev[p] == None && Sorted(Keys())
      ensures forall q :: 0 <= q < |next| && q !in old(items) ==> next[q] == old(next[q]) && prev[q] == old(prev[q])
    {
      var cur, k := Find(p);
      if cur.None? {
        forall i, j | 0 <= i < j < |items| ensures Keys()[i] <= Keys()[j] {
          assert items[i] != p && items[j] != p;
        }
        return;
      }
      Unlink(p, k);
      RemoveKeepsSorted(old(items), expires, k);
    }

    /** The search loop of `remove`: walks from the head to the entry for `p`, if any. */
    method Find(p: nat) returns (cur: Option<nat>, ghost k: nat)
      requires Linked()
      ensures cur.None? <==> p !in items
      ensures cur.Some? ==> k < |items| && items[k] == p && cur == Some(p)
    {
      cur := head;
      k := 0;
      while cur.Some? && cur.value != p
        invariant 0 <= k <= |items| && cur == At(items, k)
        invariant forall j :: 0 <= j < k ==> items[j] != p
        decreases |items| - k
      {
        LinkStep(items, head, next, prev, k);
        cur := next[cur.value];
        k := k + 1;
      }
    }
  }
}
