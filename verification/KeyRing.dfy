/** The keypad's key rings: a ring of 256 slots keeps the newest 255 keys, and a second one carries the keys
    that match a registration to the handler that calls the registered functions later. */
module KeyRing {
  import opened Helpers
  import opened KeyNotify

  const KEYPAD_EFI_KEY_MAX_COUNT: nat := 256
  const CAPACITY: nat := 255

  // ----- the ring as a sequence -----

  /** The newest keys that the ring has room for, in order. */
  function Newest(keys: seq<KeyData>): (r: seq<KeyData>)
    ensures |r| <= CAPACITY && (|keys| <= CAPACITY ==> r == keys)
  {
    if |keys| > CAPACITY then keys[|keys| - CAPACITY..] else keys
  }

  lemma NewestTwice(a: seq<KeyData>, b: seq<KeyData>)
    ensures Newest(Newest(a) + b) == Newest(a + b)
  {
  }

  function Slot(head: nat, k: nat): (i: nat)
    ensures i < KEYPAD_EFI_KEY_MAX_COUNT
  {
    (head + k) % KEYPAD_EFI_KEY_MAX_COUNT
  }

  class KeyQueue {
    const buffer: array<KeyData>
    var head: nat
    var tail: nat

    constructor ()
      ensures Valid() && fresh(buffer) && Contents() == []
    {
      buffer := new KeyData[KEYPAD_EFI_KEY_MAX_COUNT](_ => KeyData(0, 0, 0, 0));
      head, tail := 0, 0;
    }

    predicate Valid()
      reads this
    {
      buffer.Length == KEYPAD_EFI_KEY_MAX_COUNT && head < buffer.Length && tail < buffer.Length
    }

    function Count(): nat
      requires Valid()
      reads this
    {
      if head <= tail then tail - head else tail + KEYPAD_EFI_KEY_MAX_COUNT - head
    }

    /** The keys in the ring, oldest first. */
    function Contents(): (keys: seq<KeyData>)
      requires Valid()
      reads this, buffer
      ensures |keys| == Count() <= CAPACITY
    {
      seq(Count(), k requires Valid() && 0 <= k < Count() reads this, buffer => buffer[Slot(head, k)])
    }

    predicate IsEmpty()
      requires Valid()
      reads this, buffer
      ensures IsEmpty() <==> Contents() == []
    {
      head == tail
    }

    method PopHead() returns (key: Option<KeyData>)
      requires Valid()
      modifies this`head
      ensures Valid()
      ensures old(Contents()) == [] ==> key == None && Contents() == []
      ensures old(Contents()) != [] ==> key == Some(old(Contents())[0]) && Contents() == old(Contents())[1..]
    {
      if IsEmpty() {
        return None;
      }
      key := Some(buffer[head]);
      ghost var was := Contents();
      head := (head + 1) % KEYPAD_EFI_KEY_MAX_COUNT;
      assert Contents() == was[1..];
    }

    /** A full ring drops its oldest key. */
    method PushTail(key: KeyData)
      requires Valid()
      modifies this, buffer
      ensures Valid() && Contents() == Newest(old(Contents()) + [key])
      ensures Contents() == (if |old(Contents())| == CAPACITY then old(Contents())[1..] else old(Contents())) + [key]
    {
      ghost var was := Contents();
      assert (tail + 1) % KEYPAD_EFI_KEY_MAX_COUNT == head <==> |was| == CAPACITY;
      hide Contents, Count;
      if (tail + 1) % KEYPAD_EFI_KEY_MAX_COUNT == head {
        var _ := PopHead();
      }
      Append(key);
    }

    method Append(key: KeyData)
      requires Valid() && |Contents()| < CAPACITY
      modifies this`tail, buffer
      ensures Valid() && Contents() == old(Contents()) + [key]
    {
      ghost var was := Contents();
      assert Slot(head, Count()) == tail;
      buffer[tail] := key;
      tail := (tail + 1) % KEYPAD_EFI_KEY_MAX_COUNT;
      forall k | 0 <= k < |was|
        ensures Contents()[k] == was[k]
      {
        assert Slot(head, k) != Slot(head, |was|);
      }
    }
  }

  // ----- notification -----

  /** A key that means nothing is dropped, unless partial keys were asked for. */
  predicate Dropped(key: KeyData, partial: bool) { key.scanCode == 0 && key.unicodeChar == 0 && !partial }

  // A call of the function of registration number entry.
  datatype Call = Call(entry: nat, key: KeyData)

  lemma MatchesNone(key: KeyData)
    ensures Matches([], key) == 0 && Repeat(key, 0) == []
  {
  }

  lemma MatchesNext(list: seq<Entry>, k: nat, key: KeyData)
    requires k < |list|
    ensures Matches(list[..k + 1], key)
         == Matches(list[..k], key) + if IsKeyRegistered(list[k].key, key) then 1 else 0
  {
    assert list[..k + 1][..k] == list[..k];
  }

  lemma NewestRepeat(was: seq<KeyData>, key: KeyData, n: nat)
    ensures Newest(Newest(was + Repeat(key, n)) + [key]) == Newest(was + Repeat(key, n + 1))
  {
    NewestTwice(was + Repeat(key, n), [key]);
    assert was + Repeat(key, n + 1) == was + Repeat(key, n) + [key];
  }

  /** How many of the registrations a key hits. */
  function Matches(list: seq<Entry>, key: KeyData): nat {
    if list == [] then 0
    else (if IsKeyRegistered(list[|list| - 1].key, key) then 1 else 0) + Matches(list[..|list| - 1], key)
  }

  function Repeat(key: KeyData, n: nat): (keys: seq<KeyData>)
    ensures |keys| == n
  {
    seq(n, _ => key)
  }

  /** The calls that one queued key leads to: each registration it hits, once. */
  function CallsOf(list: seq<Entry>, key: KeyData): seq<Call> {
    if list == [] then []
    else
      CallsOf(list[..|list| - 1], key)
      + (if IsKeyRegistered(list[|list| - 1].key, key) then [Call(|list| - 1, key)] else [])
  }

  function CallsFor(list: seq<Entry>, keys: seq<KeyData>): seq<Call> {
    if keys == [] then [] else CallsOf(list, keys[0]) + CallsFor(list, keys[1..])
  }

  class Keypad {
    const keyQueue: KeyQueue
    const notifyQueue: KeyQueue
    var notifyList: seq<Entry>
    var isSupportPartialKey: bool
    var signalled: bool
    var calls: seq<Call>  // the notification functions called so far

    constructor ()
      ensures Valid() && fresh(Repr()) && notifyList == [] && calls == []
      ensures keyQueue.Contents() == [] && notifyQueue.Contents() == []
    {
      keyQueue := new KeyQueue();
      notifyQueue := new KeyQueue();
      notifyList, isSupportPartialKey, signalled, calls := [], false, false, [];
    }

    ghost function Repr(): set<object> { {keyQueue, notifyQueue, keyQueue.buffer, notifyQueue.buffer} }

    ghost predicate Valid()
      reads Repr()
    {
      keyQueue != notifyQueue && keyQueue.buffer != notifyQueue.buffer && keyQueue.Valid() && notifyQueue.Valid()
    }

    /** A key arrives: it is queued for the handler once for every registration it hits, and once for readers. */
    method PushKey(key: KeyData)
      requires Valid()
      modifies this`signalled, Repr()
      ensures Valid()
      ensures Dropped(key, isSupportPartialKey) ==>
        keyQueue.Contents() == old(keyQueue.Contents()) && notifyQueue.Contents() == old(notifyQueue.Contents())
      ensures !Dropped(key, isSupportPartialKey) ==> keyQueue.Contents() == Newest(old(keyQueue.Contents()) + [key])
      ensures !Dropped(key, isSupportPartialKey) ==>
        notifyQueue.Contents() == Newest(old(notifyQueue.Contents()) + Repeat(key, Matches(notifyList, key)))
      ensures signalled <==> old(signalled) || (!Dropped(key, isSupportPartialKey) && Matches(notifyList, key) > 0)
    {
      if key.scanCode == 0 && key.unicodeChar == 0 {
        if !isSupportPartialKey {
          return;
        }
      }
      QueueMatches(key);
      keyQueue.PushTail(key);
    }

    // The walk over the registrations.
    method QueueMatches(key: KeyData)
      requires Valid()
      modifies this`signalled, notifyQueue, notifyQueue.buffer
      ensures Valid() && keyQueue.Contents() == old(keyQueue.Contents())
      ensures notifyQueue.Contents() == Newest(old(notifyQueue.Contents()) + Repeat(key, Matches(notifyList, key)))
      ensures signalled <==> old(signalled) || Matches(notifyList, key) > 0
    {
      hide Newest, Repeat, Matches, IsKeyRegistered, KeyQueue.Contents, KeyQueue.Count;
      ghost var was := notifyQueue.Contents();
      var k := 0;
      MatchesNone(key);
      assert was + Repeat(key, 0) == was;
      while k < |notifyList|
        invariant k <= |notifyList| && Valid() && keyQueue.Contents() == old(keyQueue.Contents())
        invariant notifyQueue.Contents() == Newest(was + Repeat(key, Matches(notifyList[..k], key)))
        invariant signalled <==> old(signalled) || Matches(notifyList[..k], key) > 0
      {
        ghost var n := Matches(notifyList[..k], key);
        MatchesNext(notifyList, k, key);
        if IsKeyRegistered(notifyList[k].key, key) {
          notifyQueue.PushTail(key);
          signalled := true;
          NewestRepeat(was, key, n);
        }
        k := k + 1;
      }
      assert notifyList[..k] == notifyList;
    }

    /** The handler empties the notification queue, calling every registration that each key hits. */
    method ProcessNotify()
      requires Valid()
      modifies this`calls, notifyQueue`head
      ensures Valid() && notifyQueue.Contents() == [] && keyQueue.Contents() == old(keyQueue.Contents())
      ensures calls == old(calls) + CallsFor(notifyList, old(notifyQueue.Contents()))
    {
      ghost var todo := notifyQueue.Contents();
      ghost var n := 0;
      while !notifyQueue.IsEmpty()
        invariant Valid() && n <= |todo| && notifyQueue.Contents() == todo[n..]
        invariant calls == old(calls) + CallsFor(notifyList, todo[..n])
        decreases notifyQueue.Count()
      {
        var key := notifyQueue.PopHead();
        CallRegistered(key.value);
        CallsForSnoc(notifyList, todo[..n], todo[n]);
        assert todo[..n + 1] == todo[..n] + [todo[n]];
        n := n + 1;
      }
      assert todo[..n] == todo;
    }

    method CallRegistered(key: KeyData)
      modifies this`calls
      ensures calls == old(calls) + CallsOf(notifyList, key)
    {
      var k := 0;
      while k < |notifyList|
        invariant k <= |notifyList| && calls == old(calls) + CallsOf(notifyList[..k], key)
      {
        assert notifyList[..k + 1][..k] == notifyList[..k];
        if IsKeyRegistered(notifyList[k].key, key) {
          calls := calls + [Call(k, key)];
        }
        k := k + 1;
      }
      assert notifyList[..k] == notifyList;
    }

    /** A run of keys and then the handler. Whatever was queued before and whether or not the queue overflows, the
        calls are those of the newest queued keys; unless it overflows, every registration gets what was waiting
        for it and then exactly what is due to it. Readers find the newest keys that were not dropped. */
    method PressAndProcess(keys: seq<KeyData>)
      requires Valid()
      modifies this`signalled, this`calls, Repr()
      ensures Valid() && notifyQueue.Contents() == []
      ensures keyQueue.Contents() == Newest(old(keyQueue.Contents()) + Taken(keys, isSupportPartialKey))
      ensures var queued := old(notifyQueue.Contents()) + Queued(notifyList, keys, isSupportPartialKey);
        && calls == old(calls) + CallsFor(notifyList, Newest(queued))
        && (|queued| <= CAPACITY ==> forall e :: 0 <= e < |notifyList| ==>
              Got(calls, e) == old(Got(calls, e)) + Waiting(notifyList, old(notifyQueue.Contents()), e)
                               + Due(notifyList, keys, e, isSupportPartialKey))
    {
      hide Newest, Queued, Taken, Due, Got, Waiting, CallsFor, Matches, Repeat, Dropped;
      hide KeyQueue.Contents, KeyQueue.Count;
      ghost var was, read := notifyQueue.Contents(), keyQueue.Contents();
      ghost var partial := isSupportPartialKey;
      RunStart(notifyList, partial, was, read);
      var k := 0;
      while k < |keys|
        invariant k <= |keys| && Valid() && calls == old(calls)
        invariant notifyQueue.Contents() == Newest(was + Queued(notifyList, keys[..k], partial))
        invariant keyQueue.Contents() == Newest(read + Taken(keys[..k], partial))
        modifies this`signalled, Repr()
      {
        RunStep(notifyList, partial, was, read, keys, k);
        PushKey(keys[k]);
        k := k + 1;
      }
      assert keys[..k] == keys;
      ProcessNotify();
      forall e | 0 <= e < |notifyList| && |was + Queued(notifyList, keys, partial)| <= CAPACITY
        ensures Got(calls, e) == old(Got(calls, e)) + Waiting(notifyList, was, e) + Due(notifyList, keys, e, partial)
      {
        RunDelivers(notifyList, keys, e, partial, old(calls), was);
      }
    }
  }

  lemma {:induction false} CallsForConcat(list: seq<Entry>, a: seq<KeyData>, b: seq<KeyData>)
    ensures CallsFor(list, a + b) == CallsFor(list, a) + CallsFor(list, b)
  {
    if a == [] {
      assert a + b == b;
    } else {
      assert (a + b)[1..] == a[1..] + b;
      CallsForConcat(list, a[1..], b);
    }
  }

  lemma CallsForSnoc(list: seq<Entry>, keys: seq<KeyData>, key: KeyData)
    ensures CallsFor(list, keys + [key]) == CallsFor(list, keys) + CallsOf(list, key)
  {
    CallsForConcat(list, keys, [key]);
    assert CallsFor(list, [key]) == CallsOf(list, key) + CallsFor(list, []);
  }

  // ----- what reaches a registration -----

  /** The keys that a registration was called with, in order. */
  function Got(calls: seq<Call>, entry: nat): seq<KeyData> {
    if calls == [] then [] else (if calls[0].entry == entry then [calls[0].key] else []) + Got(calls[1..], entry)
  }

  lemma {:induction false} GotConcat(a: seq<Call>, b: seq<Call>, entry: nat)
    ensures Got(a + b, entry) == Got(a, entry) + Got(b, entry)
  {
    if a == [] {
      assert a + b == b;
    } else {
      var head: seq<KeyData> := if a[0].entry == entry then [a[0].key] else [];
      assert (a + b)[1..] == a[1..] + b && (a + b)[0] == a[0];
      GotConcat(a[1..], b, entry);
      assert head + (Got(a[1..], entry) + Got(b, entry)) == head + Got(a[1..], entry) + Got(b, entry);
    }
  }

  /** One queued key reaches each registration that it hits once, and no other. */
  lemma {:induction false} GotOne(list: seq<Entry>, key: KeyData, entry: nat)
    ensures Got(CallsOf(list, key), entry)
         == if entry < |list| && IsKeyRegistered(list[entry].key, key) then [key] else []
  {
    if list != [] {
      var last := |list| - 1;
      var tail := if IsKeyRegistered(list[last].key, key) then [Call(last, key)] else [];
      GotOne(list[..last], key, entry);
      GotConcat(CallsOf(list[..last], key), tail, entry);
      if tail != [] {
        assert Got(tail, entry) == (if last == entry then [key] else []) + Got([], entry);
      }
    }
  }

  /** The keys of a run that are not dropped. */
  function Taken(keys: seq<KeyData>, partial: bool): seq<KeyData> {
    if keys == [] then []
    else
      var key := keys[|keys| - 1];
      Taken(keys[..|keys| - 1], partial) + (if Dropped(key, partial) then [] else [key])
  }

  /** How often a key is queued for the handler. */
  function Copies(list: seq<Entry>, key: KeyData, partial: bool): nat {
    if Dropped(key, partial) then 0 else Matches(list, key)
  }

  /** What a run of keys queues for the handler, if nothing overflows. */
  function Queued(list: seq<Entry>, keys: seq<KeyData>, partial: bool): seq<KeyData> {
    if keys == [] then []
    else
      var key := keys[|keys| - 1];
      Queued(list, keys[..|keys| - 1], partial) + Repeat(key, Copies(list, key, partial))
  }

  /** What a registration is to be called with: every key that hits it and is not dropped, as often as the key hits
      registrations. */
  function Due(list: seq<Entry>, keys: seq<KeyData>, entry: nat, partial: bool): seq<KeyData>
    requires entry < |list|
  {
    if keys == [] then []
    else
      var key := keys[|keys| - 1];
      Due(list, keys[..|keys| - 1], entry, partial)
      + (if IsKeyRegistered(list[entry].key, key) then Repeat(key, Copies(list, key, partial)) else [])
  }

  /** What a registration is to be called with for keys already queued: those that hit it. */
  function Waiting(list: seq<Entry>, queued: seq<KeyData>, entry: nat): seq<KeyData>
    requires entry < |list|
  {
    if queued == [] then []
    else (if IsKeyRegistered(list[entry].key, queued[0]) then [queued[0]] else []) + Waiting(list, queued[1..], entry)
  }

  lemma {:induction false} GotRepeat(list: seq<Entry>, key: KeyData, n: nat, entry: nat)
    requires entry < |list|
    ensures Got(CallsFor(list, Repeat(key, n)), entry)
         == if IsKeyRegistered(list[entry].key, key) then Repeat(key, n) else []
  {
    if n > 0 {
      assert Repeat(key, n)[1..] == Repeat(key, n - 1);
      GotRepeat(list, key, n - 1, entry);
      GotOne(list, key, entry);
      GotConcat(CallsOf(list, key), CallsFor(list, Repeat(key, n - 1)), entry);
      assert [key] + Repeat(key, n - 1) == Repeat(key, n);
    }
  }

  /** When the queue did not overflow, draining it calls each registration with exactly the keys that hit it,
      in order, each k times over when it hits k registrations. */
  lemma {:induction false} Delivered(list: seq<Entry>, keys: seq<KeyData>, entry: nat, partial: bool)
    requires entry < |list|
    ensures Got(CallsFor(list, Queued(list, keys, partial)), entry) == Due(list, keys, entry, partial)
  {
    if keys != [] {
      var key, rest := keys[|keys| - 1], keys[..|keys| - 1];
      var n := Copies(list, key, partial);
      Delivered(list, rest, entry, partial);
      CallsForConcat(list, Queued(list, rest, partial), Repeat(key, n));
      GotConcat(CallsFor(list, Queued(list, rest, partial)), CallsFor(list, Repeat(key, n)), entry);
      GotRepeat(list, key, n, entry);
    }
  }

  lemma {:induction false} WaitingDelivered(list: seq<Entry>, queued: seq<KeyData>, entry: nat)
    requires entry < |list|
    ensures Got(CallsFor(list, queued), entry) == Waiting(list, queued, entry)
  {
    if queued != [] {
      WaitingDelivered(list, queued[1..], entry);
      GotOne(list, queued[0], entry);
      GotConcat(CallsOf(list, queued[0]), CallsFor(list, queued[1..]), entry);
    }
  }

  /** Draining a queue that took a run of keys without overflow: a registration gets what was waiting for it and
      what is due to it. */
  lemma RunDelivers(list: seq<Entry>, keys: seq<KeyData>, entry: nat, partial: bool, before: seq<Call>,
                    was: seq<KeyData>)
    requires entry < |list|
    ensures Got(before + CallsFor(list, was + Queued(list, keys, partial)), entry)
         == Got(before, entry) + Waiting(list, was, entry) + Due(list, keys, entry, partial)
  {
    var queued := Queued(list, keys, partial);
    CallsForConcat(list, was, queued);
    GotConcat(before, CallsFor(list, was) + CallsFor(list, queued), entry);
    GotConcat(CallsFor(list, was), CallsFor(list, queued), entry);
    WaitingDelivered(list, was, entry);
    Delivered(list, keys, entry, partial);
  }

  lemma RunStart(list: seq<Entry>, partial: bool, was: seq<KeyData>, read: seq<KeyData>)
    requires |was| <= CAPACITY && |read| <= CAPACITY
    ensures Newest(was + Queued(list, [], partial)) == was && Newest(read + Taken([], partial)) == read
  {
    assert was + [] == was && read + [] == read;
  }

  lemma RunStep(list: seq<Entry>, partial: bool, was: seq<KeyData>, read: seq<KeyData>, keys: seq<KeyData>, k: nat)
    requires k < |keys|
    ensures keys[..k] <= keys[..k + 1]
    ensures var key := keys[k]; var queue := Newest(was + Queued(list, keys[..k], partial));
      Newest(was + Queued(list, keys[..k + 1], partial))
      == if Dropped(key, partial) then queue else Newest(queue + Repeat(key, Matches(list, key)))
    ensures var key := keys[k]; var queue := Newest(read + Taken(keys[..k], partial));
      Newest(read + Taken(keys[..k + 1], partial)) == if Dropped(key, partial) then queue else Newest(queue + [key])
  {
    hide Newest;
    var key := keys[k];
    assert keys[..k + 1][..k] == keys[..k];
    var a, b := Queued(list, keys[..k], partial), Taken(keys[..k], partial);
    var more := Repeat(key, Copies(list, key, partial));
    NewestTwice(was + a, more);
    assert was + a + more == was + (a + more) && a + [] == a && b + [] == b;
    NewestTwice(read + b, [key]);
    assert read + b + [key] == read + (b + [key]);
    assert Dropped(key, partial) ==> more == [];
  }

  /** What is due to a registration are the keys that hit it and are not dropped, all of them and no others. */
  lemma {:induction false} DueHits(list: seq<Entry>, keys: seq<KeyData>, entry: nat, key: KeyData, partial: bool)
    requires entry < |list|
    ensures key in Due(list, keys, entry, partial)
      <==> key in keys && IsKeyRegistered(list[entry].key, key) && !Dropped(key, partial)
  {
    if keys != [] {
      var last, rest := keys[|keys| - 1], keys[..|keys| - 1];
      DueHits(list, rest, entry, key, partial);
      var n := if IsKeyRegistered(list[entry].key, last) then Copies(list, last, partial) else 0;
      MatchesSome(list, entry, last);
      assert keys == rest + [last];
      assert Due(list, keys, entry, partial) == Due(list, rest, entry, partial) + Repeat(last, n);
      if n > 0 {
        assert Repeat(last, n)[0] == last;
      }
    }
  }

  /** The registrations that a key hits. */
  ghost function HitBy(list: seq<Entry>, key: KeyData): set<nat> {
    set e: nat | e < |list| && IsKeyRegistered(list[e].key, key)
  }

  lemma {:induction false} MatchesSet(list: seq<Entry>, key: KeyData)
    ensures Matches(list, key) == |HitBy(list, key)|
  {
    if list == [] {
      assert HitBy(list, key) == {};
    } else {
      var last := |list| - 1;
      MatchesSet(list[..last], key);
      assert HitBy(list, key) == HitBy(list[..last], key) + if IsKeyRegistered(list[last].key, key) then {last} else {};
    }
  }

  lemma {:induction false} RepeatCount(key: KeyData, n: nat, k: KeyData)
    ensures multiset(Repeat(key, n))[k] == if k == key then n else 0
  {
    if n > 0 {
      RepeatCount(key, n - 1, k);
      assert Repeat(key, n) == Repeat(key, n - 1) + [key];
    }
  }

  /** How often a key is due to a registration: when scan code and character are the registered ones, the shift and the
      toggle state are too or the registration has none, and the key means something or partial keys were asked for,
      once for every time it came and every registration it hits; otherwise never. */
  lemma DueCount(list: seq<Entry>, keys: seq<KeyData>, entry: nat, key: KeyData, partial: bool)
    requires entry < |list|
    ensures var r := list[entry].key;
      multiset(Due(list, keys, entry, partial))[key]
      == if && r.scanCode == key.scanCode && r.unicodeChar == key.unicodeChar
            && (r.shiftState == key.shiftState || r.shiftState == 0)
            && (r.toggleState == key.toggleState || r.toggleState == 0)
            && (key.scanCode != 0 || key.unicodeChar != 0 || partial)
         then multiset(keys)[key] * |HitBy(list, key)| else 0
  {
    hide HitBy, Due;
    MatchesSet(list, key);
    DueTimes(list, keys, entry, key, partial);
  }

  lemma {:induction false} DueTimes(list: seq<Entry>, keys: seq<KeyData>, entry: nat, key: KeyData, partial: bool)
    requires entry < |list|
    ensures multiset(Due(list, keys, entry, partial))[key]
         == if IsKeyRegistered(list[entry].key, key) && !Dropped(key, partial) then
              multiset(keys)[key] * Matches(list, key)
            else 0
  {
    hide Matches, Repeat, IsKeyRegistered, Dropped;
    if keys != [] {
      var last, rest := keys[|keys| - 1], keys[..|keys| - 1];
      DueTimes(list, rest, entry, key, partial);
      var n := if IsKeyRegistered(list[entry].key, last) then Copies(list, last, partial) else 0;
      RepeatCount(last, n, key);
      assert keys == rest + [last];
      assert multiset(keys)[key] == multiset(rest)[key] + if key == last then 1 else 0;
      OnceMore(multiset(rest)[key], Matches(list, key));
      assert Due(list, keys, entry, partial) == Due(list, rest, entry, partial) + Repeat(last, n) by {
        assert Repeat(last, 0) == [];
      }
    }
  }

  lemma OnceMore(m: nat, n: nat)
    ensures (m + 1) * n == m * n + n
  {
  }

  lemma {:induction false} MatchesSome(list: seq<Entry>, entry: nat, key: KeyData)
    requires entry < |list|
    ensures IsKeyRegistered(list[entry].key, key) ==> Matches(list, key) > 0
  {
    if entry < |list| - 1 {
      MatchesSome(list[..|list| - 1], entry, key);
    }
  }

  // ----- through the console splitter -----

  ghost predicate SameKeys(a: seq<Entry>, b: seq<Entry>) {
    |a| == |b| && forall k :: 0 <= k < |a| ==> a[k].key == b[k].key
  }

  lemma {:induction false} MatchesSame(a: seq<Entry>, b: seq<Entry>, key: KeyData)
    requires SameKeys(a, b)
    ensures Matches(a, key) == Matches(b, key) && CallsOf(a, key) == CallsOf(b, key)
  {
    if a != [] {
      MatchesSame(a[..|a| - 1], b[..|b| - 1], key);
    }
  }

  lemma {:induction false} QueuedSame(a: seq<Entry>, b: seq<Entry>, keys: seq<KeyData>, partial: bool)
    requires SameKeys(a, b)
    ensures Queued(a, keys, partial) == Queued(b, keys, partial)
  {
    if keys != [] {
      QueuedSame(a, b, keys[..|keys| - 1], partial);
      MatchesSame(a, b, keys[|keys| - 1]);
    }
  }

  lemma {:induction false} CallsForSame(a: seq<Entry>, b: seq<Entry>, keys: seq<KeyData>)
    requires SameKeys(a, b)
    ensures CallsFor(a, keys) == CallsFor(b, keys)
  {
    if keys != [] {
      MatchesSame(a, b, keys[0]);
      CallsForSame(a, b, keys[1..]);
    }
  }

  /** Whatever was registered, taken back and attached before, the same keys pressed on any attached keyboard lead
      to the same calls, when both report partial keys or neither does and other clients had registered the same keys
      on both. Behind those, call number n is of the function registered with the splitter under number n. */
  lemma KeyboardsAlike(s: TextInSplitter, i: nat, j: nat, keys: seq<KeyData>, partial: bool)
    requires s.Valid() && i < |s.textInExList| && j < |s.textInExList|
    requires SameKeys(s.bases[i], s.bases[j])
    ensures var a, b := s.textInExList[i].notifyList, s.textInExList[j].notifyList; var m := |s.bases[i]|;
      && CallsFor(a, Newest(Queued(a, keys, partial))) == CallsFor(b, Newest(Queued(b, keys, partial)))
      && |a| == m + |s.notifyList|
      && forall n :: 0 <= n < |s.notifyList| ==>
        a[m + n].fn == s.notifyList[n].fn && a[m + n].key == s.notifyList[n].key
  {
    hide Queued, CallsFor, Newest, SameKeys, TextInSplitter.Valid;
    BehindBase(s, i);
    SameBehind(s, i, j);
    var a, b := s.textInExList[i].notifyList, s.textInExList[j].notifyList;
    QueuedSame(a, b, keys, partial);
    CallsForSame(a, b, Newest(Queued(a, keys, partial)));
  }

  lemma SameBehind(s: TextInSplitter, i: nat, j: nat)
    requires s.Valid() && i < |s.textInExList| && j < |s.textInExList|
    requires SameKeys(s.bases[i], s.bases[j])
    ensures SameKeys(s.textInExList[i].notifyList, s.textInExList[j].notifyList)
  {
    hide TextInSplitter.Valid;
    BehindBase(s, i);
    BehindBase(s, j);
  }

  lemma BehindBase(s: TextInSplitter, i: nat)
    requires s.Valid() && i < |s.textInExList|
    ensures |s.bases| == |s.textInExList|
    ensures var a, m := s.textInExList[i].notifyList, |s.bases[i]|;
      && |a| == m + |s.notifyList|
      && (forall k :: 0 <= k < |a| ==> a[k].key == if k < m then s.bases[i][k].key else s.notifyList[k - m].key)
      && forall n :: 0 <= n < |s.notifyList| ==>
        a[m + n].fn == s.notifyList[n].fn && a[m + n].key == s.notifyList[n].key
  {
    assert Holds(s.textInExList[i], i, s.bases[i], s.notifyList, []);
  }
}
