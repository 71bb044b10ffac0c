/** The callback protocol shared by `foreach_event2`, `foreach_digest2` and
    `foreach_selection`: items are handed one by one to a callback that updates
    its private data and says whether to go on. The private data a C callback
    reaches through `void *data` is passed in and out as a value. */
module Callbacks {

  /** What a walk leaves behind: the callback's data, whether every item was
      accepted, and how many items were handed over. */
  datatype Outcome<S> = Outcome(data: S, ok: bool, seen: nat)

  /** Feeds `items` to `callback`, stopping after the first rejected one. */
  function Feed<S, T>(items: seq<T>, callback: (S, T) -> (S, bool), data: S): Outcome<S> {
    if items == [] then
      Outcome(data, true, 0)
    else
      var (data', more) := callback(data, items[0]);
      if !more then
        Outcome(data', false, 1)
      else
        Later(1, Feed(items[1..], callback, data'))
  }

  /** The outcome of a walk of which `n` items were already accepted. */
  function Later<S>(n: nat, o: Outcome<S>): Outcome<S> {
    o.(seen := n + o.seen)
  }

  /** One more item of a walk that has handed over `handed`. */
  lemma WalkStep<S, T>(all: seq<T>, handed: seq<T>, item: T, rest: seq<T>,
                       callback: (S, T) -> (S, bool), start: S, data: S)
    requires all == handed + ([item] + rest)
    requires Feed(all, callback, start) == Later(|handed|, Feed([item] + rest, callback, data))
    ensures all == handed + [item] + rest
    ensures var (data', more) := callback(data, item);
      Feed(all, callback, start)
      == if more then Later(|handed + [item]|, Feed(rest, callback, data'))
         else Outcome(data', false, |handed + [item]|)
  {
    assert ([item] + rest)[1..] == rest;
  }

  lemma NothingFed<S, T>(callback: (S, T) -> (S, bool), data: S)
    ensures Feed([], callback, data) == Outcome(data, true, 0)
  {
  }

  /** The callback's data after `k` items, whatever it answered. */
  function DataAfter<S, T>(items: seq<T>, callback: (S, T) -> (S, bool), data: S, k: nat): S
    requires k <= |items|
    decreases k
  {
    if k == 0 then data else callback(DataAfter(items, callback, data, k - 1), items[k - 1]).0
  }

  /** Whether the callback accepts item `k` after the items before it. */
  predicate Accepts<S, T>(items: seq<T>, callback: (S, T) -> (S, bool), data: S, k: nat)
    requires k < |items|
  {
    callback(DataAfter(items, callback, data, k), items[k]).1
  }

  lemma {:induction false} DataAfterTail<S, T>(items: seq<T>, callback: (S, T) -> (S, bool), data: S, k: nat)
    requires 0 < k <= |items|
    ensures DataAfter(items, callback, data, k)
         == DataAfter(items[1..], callback, callback(data, items[0]).0, k - 1)
    decreases k
  {
    if k == 1 {
      assert DataAfter(items, callback, data, 0) == data;
    } else {
      DataAfterTail(items, callback, data, k - 1);
    }
  }

  lemma {:induction false} DataAfterPrefix<S, T>(prefix: seq<T>, items: seq<T>, callback: (S, T) -> (S, bool),
                                                 data: S, k: nat)
    requires prefix <= items && k <= |prefix|
    ensures DataAfter(prefix, callback, data, k) == DataAfter(items, callback, data, k)
    decreases k
  {
    if k > 0 {
      DataAfterPrefix(prefix, items, callback, data, k - 1);
    }
  }

  lemma AcceptsPrefix<S, T>(prefix: seq<T>, items: seq<T>, callback: (S, T) -> (S, bool), data: S, k: nat)
    requires prefix <= items && k < |prefix|
    ensures Accepts(prefix, callback, data, k) == Accepts(items, callback, data, k)
  {
    DataAfterPrefix(prefix, items, callback, data, k);
  }

  /** Early stop: exactly the items up to and including the first rejected one
      are handed over, `ok` is false precisely when one was rejected, and the
      data is what those items made of it. */
  lemma {:induction false} EarlyStop<S, T>(items: seq<T>, callback: (S, T) -> (S, bool), data: S)
    ensures var o := Feed(items, callback, data);
      && o.seen <= |items|
      && o.data == DataAfter(items, callback, data, o.seen)
      && (o.ok <==> forall k: nat | k < |items| :: Accepts(items, callback, data, k))
      && (o.ok ==> o.seen == |items|)
      && (!o.ok ==> o.seen > 0 && !Accepts(items, callback, data, o.seen - 1))
      && (forall k: nat | k + 1 < o.seen :: Accepts(items, callback, data, k))
  {
    if items != [] {
      var (data', more) := callback(data, items[0]);
      assert DataAfter(items, callback, data, 0) == data;
      assert more == Accepts(items, callback, data, 0);
      DataAfterTail(items, callback, data, 1);
      if more {
        EarlyStop(items[1..], callback, data');
        forall k: nat | 0 < k < |items|
          ensures Accepts(items, callback, data, k) == Accepts(items[1..], callback, data', k - 1)
        {
          DataAfterTail(items, callback, data, k);
        }
        var o := Feed(items[1..], callback, data');
        DataAfterTail(items, callback, data, o.seen + 1);
        if !o.ok {
          var k: nat :| k < |items[1..]| && !Accepts(items[1..], callback, data', k);
          assert !Accepts(items, callback, data, k + 1);
        }
      }
    }
  }

  /** A callback that never rejects sees every item. */
  lemma {:induction false} AlwaysAccepting<S, T>(items: seq<T>, callback: (S, T) -> (S, bool), data: S)
    requires forall s, t :: callback(s, t).1
    ensures var o := Feed(items, callback, data); o.ok && o.seen == |items|
  {
    if items != [] {
      AlwaysAccepting(items[1..], callback, callback(data, items[0]).0);
    }
  }

  /** A callback that records the items it is handed. */
  function Recorder<T>(): (seq<T>, T) -> (seq<T>, bool) {
    (seen: seq<T>, item: T) => (seen + [item], true)
  }

  lemma {:induction false} RecorderRecordsAll<T>(items: seq<T>, seen: seq<T>)
    ensures Feed(items, Recorder(), seen) == Outcome(seen + items, true, |items|)
  {
    if items == [] {
      assert seen + items == seen;
    } else {
      RecorderRecordsAll(items[1..], seen + [items[0]]);
      assert seen + [items[0]] + items[1..] == seen + items;
    }
  }
}
