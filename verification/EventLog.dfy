/** The crypto-agile event log as raw memory: where digests and events lie, and
    the walks over them (`example/util.c`). */
module EventLog {
  import opened Common
  import opened RawMemory
  import opened Callbacks

  // Field offsets of TCG_EVENT_HEADER2 and the sizes of the fixed parts.
  const EVENT_TYPE_OFFSET := 4
  const DIGEST_COUNT_OFFSET := 8
  const EVENT_HEADER2_SIZE := 12
  const DIGEST2_SIZE := 2
  const EVENT2_SIZE := 4

  function DigestCount(m: Memory, header: nat): u32 {
    U32(m, header + DIGEST_COUNT_OFFSET)
  }

  function FirstDigest(header: nat): nat {
    header + EVENT_HEADER2_SIZE
  }

  // ---- Positions by stepping pointers ----

  /** `get_next_digest`. */
  function NextDigest(m: Memory, digest: nat): (next: nat)
    ensures next >= digest + 2
  {
    digest + DIGEST2_SIZE + AlgSize(U16(m, digest))
  }

  /** The digest pointer after `n` steps. */
  function DigestAt(m: Memory, digest: nat, n: nat): (d: nat)
    ensures digest + 2 * n <= d <= digest + (DIGEST2_SIZE + MAX_DIGEST_SIZE) * n
    decreases n
  {
    if n == 0 then digest else DigestAt(m, NextDigest(m, digest), n - 1)
  }

  /** The digest pointers visited by `n` steps. */
  function DigestsFrom(m: Memory, digest: nat, n: nat): (ds: seq<nat>)
    ensures |ds| == n
    decreases n
  {
    if n == 0 then [] else [digest] + DigestsFrom(m, NextDigest(m, digest), n - 1)
  }

  lemma DigestsStep(m: Memory, digest: nat, n: nat)
    requires n > 0
    ensures DigestsFrom(m, digest, n) == [digest] + DigestsFrom(m, NextDigest(m, digest), n - 1)
  {
    hide NextDigest;
  }

  lemma NoDigestsFrom(m: Memory, digest: nat)
    ensures DigestsFrom(m, digest, 0) == []
  {
  }

  /** The k-th of them is where k steps lead. */
  lemma {:induction false} DigestsFromAt(m: Memory, digest: nat, n: nat, k: nat)
    requires k < n
    ensures DigestsFrom(m, digest, n)[k] == DigestAt(m, digest, k)
    ensures k + 1 < n ==> DigestsFrom(m, digest, n)[k + 1] == NextDigest(m, DigestsFrom(m, digest, n)[k])
    decreases k
  {
    hide NextDigest;
    var next := NextDigest(m, digest);
    if k > 0 {
      DigestsFromAt(m, next, n - 1, k - 1);
    } else if n > 1 {
      assert DigestsFrom(m, next, n - 1)[0] == next;
    }
  }

  /** An algorithm the size table does not list. */
  predicate Unknown(alg: u16) {
    alg != 0x0004 && alg != 0x000B && alg != 0x000C && alg != 0x000D && alg != 0x0012
  }

  /** How far the digest pointer moves, by the algorithm it finds. Over a digest of
      an unknown one, and only then, it moves by the identifier alone. */
  lemma DigestStep(m: Memory, digest: nat)
    ensures NextDigest(m, digest) == digest + 2 <==> Unknown(U16(m, digest))
    ensures U16(m, digest) == 0x0004 ==> NextDigest(m, digest) == digest + 22
    ensures U16(m, digest) == 0x000B || U16(m, digest) == 0x0012 ==> NextDigest(m, digest) == digest + 34
    ensures U16(m, digest) == 0x000C ==> NextDigest(m, digest) == digest + 50
    ensures U16(m, digest) == 0x000D ==> NextDigest(m, digest) == digest + 66
  {
    hide U16;
  }

  /** `n` digests of unknown algorithms, two bytes apart. */
  predicate AllUnknown(m: Memory, digest: nat, n: nat)
    decreases n
  {
    n > 0 ==> Unknown(U16(m, digest)) && AllUnknown(m, digest + 2, n - 1)
  }

  lemma {:induction false} UnknownDigests(m: Memory, digest: nat, n: nat)
    requires AllUnknown(m, digest, n)
    ensures DigestAt(m, digest, n) == digest + 2 * n
    decreases n
  {
    hide U16, Unknown, NextDigest;
    if n > 0 {
      DigestStep(m, digest);
      UnknownDigests(m, digest + 2, n - 1);
    }
  }

  /** Where the event body (TCG_EVENT2) of `header` starts. */
  function EventBody(m: Memory, header: nat): (body: nat)
    ensures body >= header + EVENT_HEADER2_SIZE + 2 * DigestCount(m, header)
  {
    DigestAt(m, FirstDigest(header), DigestCount(m, header))
  }

  /** The address just past the event at `header`. */
  function NextEvent(m: Memory, header: nat): (next: nat)
    ensures next >= header + 16 + 2 * DigestCount(m, header) + U32(m, EventBody(m, header))
  {
    EventBody(m, header) + EVENT2_SIZE + U32(m, EventBody(m, header))
  }

  /** The event addresses a walk from `first` visits, up to and including `last`. */
  function EventsFrom(m: Memory, first: nat, last: nat): seq<nat>
    decreases last + 1 - first
  {
    if first > last then [] else [first] + EventsFrom(m, NextEvent(m, first), last)
  }

  lemma EventsStep(m: Memory, first: nat, last: nat)
    requires first <= last
    ensures EventsFrom(m, first, last) == [first] + EventsFrom(m, NextEvent(m, first), last)
  {
    hide NextEvent;
  }

  lemma EventsStop(m: Memory, first: nat, last: nat)
    requires first > last
    ensures EventsFrom(m, first, last) == []
  {
  }

  // ---- The accumulator callbacks ----

  function SizeofDigest2(m: Memory, digest: nat): nat {
    DIGEST2_SIZE + AlgSize(U16(m, digest))
  }

  /** `digest2_accumulator_callback`; the data is a possibly null `size_t *`. */
  function DigestAccumulator(m: Memory): (Option<nat>, nat) -> (Option<nat>, bool) {
    (size: Option<nat>, digest: nat) =>
      if size.None? then (None, false) else (Some(size.value + SizeofDigest2(m, digest)), true)
  }

  /** `prettyprint_tpm2_digest_callback`, which tolerates a null size. */
  function PrettyprintDigestCallback(m: Memory): (Option<nat>, nat) -> (Option<nat>, bool) {
    (size: Option<nat>, digest: nat) =>
      if size.None? then (None, true) else (Some(size.value + SizeofDigest2(m, digest)), true)
  }

  /** The sizes summed over the visited digests are the distance the stepped
      pointer covers, whatever memory holds, unknown algorithms included. */
  lemma {:induction false} SizesSumToDistance(m: Memory, digest: nat, n: nat, size: nat)
    ensures var total := Outcome(Some(size + DigestAt(m, digest, n) - digest), true, n);
      && Feed(DigestsFrom(m, digest, n), DigestAccumulator(m), Some(size)) == total
      && Feed(DigestsFrom(m, digest, n), PrettyprintDigestCallback(m), Some(size)) == total
    decreases n
  {
    if n > 0 {
      SizesSumToDistance(m, NextDigest(m, digest), n - 1, size + SizeofDigest2(m, digest));
      assert DigestsFrom(m, digest, n)[1..] == DigestsFrom(m, NextDigest(m, digest), n - 1);
    }
  }

  /** Without a size to add to, the accumulator stops at the first digest; printing
      goes on. */
  lemma {:induction false} WithoutSize(m: Memory, digest: nat, n: nat)
    ensures var ds := DigestsFrom(m, digest, n);
      && Feed(ds, DigestAccumulator(m), None) == Outcome(None, n == 0, if n == 0 then 0 else 1)
      && Feed(ds, PrettyprintDigestCallback(m), None) == Outcome(None, true, n)
    decreases n
  {
    if n > 0 {
      WithoutSize(m, NextDigest(m, digest), n - 1);
      assert DigestsFrom(m, digest, n)[1..] == DigestsFrom(m, NextDigest(m, digest), n - 1);
    }
  }

  // ---- The walks ----

  /** `foreach_digest2`: an event without digests gives `true`. The k-th digest
      handed over is where k steps from the first one lead; all are, up to the
      first one the callback rejects. */
  method ForeachDigest2<S>(m: Memory, header: nat, callback: (S, nat) -> (S, bool), data: S)
    returns (ret: bool, data': S, ghost handed: seq<nat>)
    ensures var all := DigestsFrom(m, FirstDigest(header), DigestCount(m, header));
      var o := Feed(all, callback, data);
      data' == o.data && ret == o.ok && |handed| == o.seen && handed <= all
    ensures forall k :: 0 <= k < |handed| ==> handed[k] == DigestAt(m, FirstDigest(header), k)
    ensures data' == DataAfter(handed, callback, data, |handed|)
    ensures if ret then |handed| == DigestCount(m, header)
            else handed != [] && !Accepts(handed, callback, data, |handed| - 1)
    ensures forall k: nat | k < |handed| && (ret || k + 1 < |handed|) :: Accepts(handed, callback, data, k)
    ensures DigestCount(m, header) == 0 ==> ret && data' == data
  {
    hide U32, DigestsFrom, DigestAt, NextDigest, Feed, DataAfter, Accepts;
    ghost var all := DigestsFrom(m, FirstDigest(header), DigestCount(m, header));
    ret, data', handed := true, data, [];
    var digest := FirstDigest(header);
    var i := 0;
    while i < DigestCount(m, header) && digest != NULL
      invariant 0 <= i <= DigestCount(m, header)
      invariant digest != NULL && ret && |handed| == i && (i == 0 ==> data' == data)
      invariant all == handed + DigestsFrom(m, digest, DigestCount(m, header) - i)
      invariant Feed(all, callback, data)
             == Later(|handed|, Feed(DigestsFrom(m, digest, DigestCount(m, header) - i), callback, data'))
    {
      ghost var rest := DigestsFrom(m, NextDigest(m, digest), DigestCount(m, header) - i - 1);
      DigestsStep(m, digest, DigestCount(m, header) - i);
      WalkStep(all, handed, digest, rest, callback, data, data');
      data', ret := CallBack(callback, data', digest);
      handed := handed + [digest];
      if !ret {
        break;
      }
      digest := NextDigest(m, digest);
      i := i + 1;
    }
    NoDigestsFrom(m, digest);
    NothingFed(callback, data');
    HandedOver(m, header, callback, data, handed);
  }

  /** What `EarlyStop` says of the digests handed over. */
  lemma HandedOver<S>(m: Memory, header: nat, callback: (S, nat) -> (S, bool), data: S, handed: seq<nat>)
    requires var all := DigestsFrom(m, FirstDigest(header), DigestCount(m, header));
      handed <= all && |handed| == Feed(all, callback, data).seen
    ensures var o := Feed(DigestsFrom(m, FirstDigest(header), DigestCount(m, header)), callback, data);
      && o.data == DataAfter(handed, callback, data, |handed|)
      && (if o.ok then |handed| == DigestCount(m, header)
          else handed != [] && !Accepts(handed, callback, data, |handed| - 1))
      && forall k: nat | k < |handed| && (o.ok || k + 1 < |handed|) :: Accepts(handed, callback, data, k)
    ensures forall k :: 0 <= k < |handed| ==> handed[k] == DigestAt(m, FirstDigest(header), k)
  {
    hide DigestsFrom, DigestAt, DigestCount, FirstDigest, Feed, DataAfter, Accepts;
    var first, n := FirstDigest(header), DigestCount(m, header);
    var all := DigestsFrom(m, first, n);
    EarlyStop(all, callback, data);
    forall k | 0 <= k < |handed| ensures handed[k] == DigestAt(m, first, k) {
      DigestsFromAt(m, first, n, k);
    }
    forall k: nat | k < |handed| ensures Accepts(handed, callback, data, k) == Accepts(all, callback, data, k) {
      AcceptsPrefix(handed, all, callback, data, k);
    }
    DataAfterPrefix(handed, all, callback, data, |handed|);
  }

  method CallBack<S, T>(callback: (S, T) -> (S, bool), data: S, item: T) returns (data': S, more: bool)
    ensures (data', more) == callback(data, item)
  {
    var answer := callback(data, item);
    return answer.0, answer.1;
  }

  /** `get_next_event`, which adds up sizes, lands where stepping pointers does. */
  method GetNextEvent(m: Memory, header: nat) returns (next: nat)
    ensures next == NextEvent(m, header) && next != NULL
    ensures var n := DigestCount(m, header);
      AllUnknown(m, header + 12, n) ==> next == header + 12 + 2 * n + 4 + U32(m, header + 12 + 2 * n)
  {
    hide U32, DigestAt, DigestsFrom, AllUnknown, Feed, DataAfter, Accepts;
    if AllUnknown(m, header + 12, DigestCount(m, header)) {
      UnknownDigests(m, header + 12, DigestCount(m, header));
    }
    var ret, size, _ := ForeachDigest2(m, header, DigestAccumulator(m), Some(0));
    SizesSumToDistance(m, FirstDigest(header), DigestCount(m, header), 0);
    if !ret {
      return NULL;
    }
    var event := FirstDigest(header) + size.value;
    next := event + EVENT2_SIZE + U32(m, event);
  }

  /** `prettyprint_tpm2_event`: the address and length of the event data it
      dumps, `None` for a null header. They end exactly at the next event. */
  method PrettyprintEvent(m: Memory, header: nat) returns (dumped: Option<(nat, nat)>)
    ensures dumped.None? <==> header == NULL
    ensures dumped.Some? ==> var (start, size) := dumped.value;
      && start == EventBody(m, header) + EVENT2_SIZE
      && start + size == NextEvent(m, header)
  {
    hide U32, DigestAt, DigestsFrom, Feed, DataAfter, Accepts;
    if header == NULL {
      return None;
    }
    var ret, size, _ := ForeachDigest2(m, header, PrettyprintDigestCallback(m), Some(0));
    SizesSumToDistance(m, FirstDigest(header), DigestCount(m, header), 0);
    if !ret {
      return None;
    }
    var event := FirstDigest(header) + size.value;
    return Some((event + EVENT2_SIZE, U32(m, event)));
  }

  /** `foreach_event2`. */
  method ForeachEvent2<S>(m: Memory, first: nat, last: nat,
                          callback: Option<(S, nat) -> (S, bool)>, data: S)
    returns (ret: bool, data': S, ghost handed: seq<nat>)
    ensures first == NULL || last == NULL || callback.None? ==> !ret && data' == data
    ensures first != NULL && last != NULL && callback.Some? ==>
      var o := Feed(EventsFrom(m, first, last), callback.value, data);
      data' == o.data && ret == o.ok
    ensures handed <= EventsFrom(m, first, last)
    ensures |handed| == if first == NULL || last == NULL || callback.None? then 0
                        else Feed(EventsFrom(m, first, last), callback.value, data).seen
  {
    hide U32, DigestCount, EventsFrom, NextEvent, EventBody, AllUnknown, Feed;
    data', handed := data, [];
    if first == NULL || last == NULL || callback.None? {
      return false, data', handed;
    }
    var event := first;
    while event <= last && event != NULL
      invariant event != NULL
      invariant Feed(EventsFrom(m, first, last), callback.value, data)
             == Later(|handed|, Feed(EventsFrom(m, event, last), callback.value, data'))
      invariant EventsFrom(m, first, last) == handed + EventsFrom(m, event, last)
      decreases last + 1 - event
    {
      EventsStep(m, event, last);
      WalkStep<S, nat>(EventsFrom(m, first, last), handed, event, EventsFrom(m, NextEvent(m, event), last),
                       callback.value, data, data');
      var more: bool;
      data', more := CallBack<S, nat>(callback.value, data', event);
      handed := handed + [event];
      if !more {
        return false, data', handed;
      }
      event := GetNextEvent(m, event);
    }
    EventsStop(m, event, last);
    NothingFed<S, nat>(callback.value, data');
    return true, data', handed;
  }

  /** `prettyprint_tpm2_eventlog`: the addresses of the events it prints, in
      order. */
  method PrettyprintEventlog(m: Memory, first: nat, last: nat) returns (printed: seq<nat>)
    ensures printed == if first == NULL || last == NULL then [] else EventsFrom(m, first, last)
  {
    printed := [];
    if first == NULL {
      return;
    }
    var _, events, _ := ForeachEvent2(m, first, last, Some(Recorder<nat>()), printed);
    printed := events;
    RecorderRecordsAll(EventsFrom(m, first, last), []);
  }

  // ---- Whatever memory holds ----

  lemma {:induction false} WalkStaysInRange(m: Memory, first: nat, last: nat)
    ensures var es := EventsFrom(m, first, last);
      && (es == [] <==> first > last)
      && (es != [] ==> es[0] == first)
      && (forall i :: 0 <= i < |es| ==> first <= es[i] <= last)
    decreases last + 1 - first
  {
    hide NextEvent;
    if first <= last {
      WalkStaysInRange(m, NextEvent(m, first), last);
    }
  }

  /** Visited addresses are strictly increasing, at least a 16-byte event apart. */
  lemma {:induction false} WalkIsSpaced(m: Memory, first: nat, last: nat)
    ensures var es := EventsFrom(m, first, last);
      forall i, j :: 0 <= i < j < |es| ==> es[i] + 16 <= es[j]
    decreases last + 1 - first
  {
    hide NextEvent;
    if first <= last {
      WalkStaysInRange(m, NextEvent(m, first), last);
      WalkIsSpaced(m, NextEvent(m, first), last);
    }
  }

  /** The walk makes at most (last - first)/16 + 1 callbacks. */
  lemma {:induction false} WalkIsShort(m: Memory, first: nat, last: nat)
    requires first <= last
    ensures |EventsFrom(m, first, last)| <= (last - first) / 16 + 1
    decreases last + 1 - first
  {
    hide NextEvent;
    if NextEvent(m, first) <= last {
      WalkIsShort(m, NextEvent(m, first), last);
    }
  }

  /** Every visit but the first is where the event before it ends. */
  lemma {:induction false} WalkIsContiguous(m: Memory, first: nat, last: nat)
    ensures var es := EventsFrom(m, first, last);
      forall i, j :: 0 <= i < j < |es| && j == i + 1 ==> es[j] == NextEvent(m, es[i])
    decreases last + 1 - first
  {
    hide NextEvent;
    if first <= last {
      var next := NextEvent(m, first);
      WalkStaysInRange(m, next, last);
      WalkIsContiguous(m, next, last);
      var es, rest := EventsFrom(m, first, last), EventsFrom(m, next, last);
      forall i, j | 0 <= i < j < |es| && j == i + 1 ensures es[j] == NextEvent(m, es[i]) {
        assert es[j] == rest[i];
        assert i > 0 ==> es[i] == rest[i - 1];
      }
    }
  }

  /** The walk ends only when the next event would start beyond `last`. */
  lemma {:induction false} WalkIsExhaustive(m: Memory, first: nat, last: nat)
    requires first <= last
    ensures var es := EventsFrom(m, first, last);
      es != [] && NextEvent(m, es[|es| - 1]) > last
    decreases last + 1 - first
  {
    hide NextEvent;
    if NextEvent(m, first) <= last {
      WalkIsExhaustive(m, NextEvent(m, first), last);
    }
  }

  /** The most one event can occupy. */
  const MAX_EVENT_SPAN: nat :=
    EVENT_HEADER2_SIZE + (DIGEST2_SIZE + MAX_DIGEST_SIZE) * 0xFFFF_FFFF + EVENT2_SIZE + 0xFFFF_FFFF

  lemma SpanBounds(m: Memory, header: nat)
    ensures header < EventBody(m, header) < NextEvent(m, header) <= header + MAX_EVENT_SPAN
  {
    hide U32;
    var count := DigestCount(m, header);
    assert (DIGEST2_SIZE + MAX_DIGEST_SIZE) * count <= (DIGEST2_SIZE + MAX_DIGEST_SIZE) * 0xFFFF_FFFF;
  }

  /** When `last` is that far below the end of the address space, no pointer or
      size the walk computes wraps around, the one past `last` included. */
  lemma AddressesFit(m: Memory, header: nat, last: nat)
    requires header <= last && last + MAX_EVENT_SPAN < ADDRESS_SPACE
    ensures NextEvent(m, header) <= header + MAX_EVENT_SPAN
    ensures header < EventBody(m, header) < NextEvent(m, header) < ADDRESS_SPACE
    ensures forall n: nat | n <= DigestCount(m, header) ::
      header < DigestAt(m, FirstDigest(header), n) < ADDRESS_SPACE
  {
    var count := DigestCount(m, header);
    assert (DIGEST2_SIZE + MAX_DIGEST_SIZE) * count <= (DIGEST2_SIZE + MAX_DIGEST_SIZE) * 0xFFFF_FFFF;
    forall n: nat | n <= count
      ensures header < DigestAt(m, FirstDigest(header), n) < ADDRESS_SPACE
    {
      assert (DIGEST2_SIZE + MAX_DIGEST_SIZE) * n <= (DIGEST2_SIZE + MAX_DIGEST_SIZE) * count;
    }
  }
}
