/** Key notifications: a keypad keeps a list of registrations, and the console splitter registers each of
    its own on every attached keypad, undoing what it did when one of them refuses. */
module KeyNotify {

  datatype KeyData = KeyData(scanCode: nat, unicodeChar: nat, shiftState: nat, toggleState: nat)

  // A notification function, by its address.
  type NotifyFn = nat

  datatype Status = Success | InvalidParameter | OutOfResources

  /** Whether a registered key is hit by an input key; a zero state in the registration is a wildcard. */
  predicate IsKeyRegistered(registered: KeyData, input: KeyData) {
    && registered.scanCode == input.scanCode && registered.unicodeChar == input.unicodeChar
    && (registered.shiftState != 0 ==> registered.shiftState == input.shiftState)
    && (registered.toggleState != 0 ==> registered.toggleState == input.toggleState)
  }

  // ----- one device -----

  datatype Entry = Entry(handle: nat, key: KeyData, fn: NotifyFn)

  /** A registration that already covers a new one. */
  predicate Covers(e: Entry, key: KeyData, fn: NotifyFn) { IsKeyRegistered(e.key, key) && e.fn == fn }

  predicate Covered(list: seq<Entry>, key: KeyData, fn: NotifyFn) {
    exists k :: 0 <= k < |list| && Covers(list[k], key, fn)
  }

  /** The list without the entry of a handle. */
  function Drop(list: seq<Entry>, handle: nat): seq<Entry> {
    if list == [] then [] else if list[0].handle == handle then list[1..] else [list[0]] + Drop(list[1..], handle)
  }

  class ExDevice {
    var notifyList: seq<Entry>
    var nextHandle: nat  // handles are addresses of live allocations, never two alike

    constructor ()
      ensures Valid() && notifyList == []
    {
      notifyList, nextHandle := [], 0;
    }

    predicate Valid()
      reads this
    {
      && (forall k :: 0 <= k < |notifyList| ==> notifyList[k].handle < nextHandle)
      && (forall j, k :: 0 <= j < k < |notifyList| ==> notifyList[j].handle != notifyList[k].handle)
    }

    /** A registration that is already covered gives back the covering handle; otherwise it is appended, unless
        there is no memory for it. */
    method RegisterKeyNotify(key: KeyData, fn: NotifyFn, refuse: bool) returns (status: Status, handle: nat)
      requires Valid()
      modifies this
      ensures Valid()
      ensures status == Success <==> Covered(old(notifyList), key, fn) || !refuse
      ensures Covered(old(notifyList), key, fn) ==> notifyList == old(notifyList)
      ensures Covered(old(notifyList), key, fn) ==>
        exists k :: 0 <= k < |notifyList| && Covers(notifyList[k], key, fn) && notifyList[k].handle == handle
      ensures !Covered(old(notifyList), key, fn) ==>
        notifyList == old(notifyList) + if refuse then [] else [Entry(handle, key, fn)]
    {
      var k := 0;
      while k < |notifyList|
        invariant k <= |notifyList| && forall j :: 0 <= j < k ==> !Covers(notifyList[j], key, fn)
      {
        if IsKeyRegistered(notifyList[k].key, key) {
          if notifyList[k].fn == fn {
            return Success, notifyList[k].handle;
          }
        }
        k := k + 1;
      }
      if refuse {
        return OutOfResources, 0;
      }
      handle := nextHandle;
      nextHandle := nextHandle + 1;
      notifyList := notifyList + [Entry(handle, key, fn)];
      status := Success;
    }

    method UnregisterKeyNotify(handle: nat) returns (status: Status)
      requires Valid()
      modifies this
      ensures Valid() && notifyList == Drop(old(notifyList), handle)
      ensures status == Success <==> exists k :: 0 <= k < |old(notifyList)| && old(notifyList)[k].handle == handle
    {
      var k := 0;
      while k < |notifyList|
        invariant k <= |notifyList| && notifyList == old(notifyList) && Valid()
        invariant forall j :: 0 <= j < k ==> notifyList[j].handle != handle
      {
        if notifyList[k].handle == handle {
          DropAt(notifyList, k);
          notifyList := notifyList[..k] + notifyList[k + 1..];
          return Success;
        }
        k := k + 1;
      }
      DropNone(notifyList, handle);
      status := InvalidParameter;
    }
  }

  lemma {:induction false} DropAt(list: seq<Entry>, k: nat)
    requires k < |list| && forall j :: 0 <= j < k ==> list[j].handle != list[k].handle
    ensures Drop(list, list[k].handle) == list[..k] + list[k + 1..]
  {
    if k > 0 {
      DropAt(list[1..], k - 1);
    }
  }

  lemma {:induction false} DropNone(list: seq<Entry>, handle: nat)
    requires forall j :: 0 <= j < |list| ==> list[j].handle != handle
    ensures Drop(list, handle) == list
  {
    if list != [] {
      DropNone(list[1..], handle);
    }
  }

  lemma {:induction false} DropShorter(list: seq<Entry>, k: nat)
    requires k < |list|
    ensures |Drop(list, list[k].handle)| == |list| - 1
  {
    if k > 0 && list[0].handle != list[k].handle {
      DropShorter(list[1..], k - 1);
    }
  }

  // ----- the splitter -----

  const CONSOLE_SPLITTER_ALLOC_UNIT: nat := 32

  // A registration made with the splitter; handles is indexed by device.
  datatype Notify = Notify(id: nat, key: KeyData, fn: NotifyFn, handles: seq<nat>)

  /** The registrations that device i must hold for a list. */
  ghost function EntriesFor(list: seq<Notify>, i: nat): (r: seq<Entry>)
    requires forall j :: 0 <= j < |list| ==> i < |list[j].handles|
    ensures |r| == |list|
  {
    seq(|list|, j requires 0 <= j < |list| => Entry(list[j].handles[i], list[j].key, list[j].fn))
  }

  ghost predicate Hits(n: Notify, key: KeyData, fn: NotifyFn) { IsKeyRegistered(n.key, key) && n.fn == fn }

  ghost predicate AnyHits(list: seq<Notify>, key: KeyData, fn: NotifyFn) {
    exists j :: 0 <= j < |list| && Hits(list[j], key, fn)
  }

  /** No registration is covered by an earlier one. */
  ghost predicate Uncovered(list: seq<Notify>) {
    forall j, k :: 0 <= j < k < |list| ==> !Hits(list[j], list[k].key, list[k].fn)
  }

  lemma CoveredBase(base: seq<Entry>, list: seq<Notify>, i: nat, key: KeyData, fn: NotifyFn)
    requires (forall j :: 0 <= j < |list| ==> i < |list[j].handles|) && !AnyHits(list, key, fn)
    ensures Covered(base + EntriesFor(list, i), key, fn) <==> Covered(base, key, fn)
    ensures forall k :: 0 <= k < |base + EntriesFor(list, i)| && Covers((base + EntriesFor(list, i))[k], key, fn) ==>
      k < |base|
  {
    var all := base + EntriesFor(list, i);
    forall k | |base| <= k < |all|
      ensures !Covers(all[k], key, fn)
    {
      assert !Hits(list[k - |base|], key, fn);
    }
    if Covered(base, key, fn) {
      var k :| 0 <= k < |base| && Covers(base[k], key, fn);
      assert Covers(all[k], key, fn);
    }
  }

  /** Device i holds the registrations that other clients had made on it, then exactly those of a list, in order, and
      then more. */
  ghost predicate Holds(d: ExDevice, i: nat, base: seq<Entry>, list: seq<Notify>, more: seq<Entry>)
    reads d
  {
    && d.Valid() && (forall j :: 0 <= j < |list| ==> i < |list[j].handles|)
    && d.notifyList == base + EntriesFor(list, i) + more
  }

  /** What a registration adds to a device: nothing when another client's covers it. */
  ghost function Added(base: seq<Entry>, e: Entry): seq<Entry> { if Covered(base, e.key, e.fn) then [] else [e] }

  /** A handle of another client's registration. */
  ghost predicate Theirs(base: seq<Entry>, handle: nat) { exists k :: 0 <= k < |base| && base[k].handle == handle }

  /** Device i after a registration was made on it: a covered one has been given another client's handle. */
  ghost predicate Took(d: ExDevice, i: nat, base: seq<Entry>, list: seq<Notify>, e: Entry)
    reads d
  {
    && Holds(d, i, base, list, Added(base, e))
    && (Covered(base, e.key, e.fn) ==> Theirs(base, e.handle))
  }

  /** One device in turn. */
  method TakeOne(d: ExDevice, i: nat, ghost base: seq<Entry>, ghost list: seq<Notify>, key: KeyData, fn: NotifyFn,
                 refuse: bool)
    returns (status: Status, handle: nat)
    requires Holds(d, i, base, list, []) && !AnyHits(list, key, fn)
    modifies d
    ensures status == Success <==> Covered(base, key, fn) || !refuse
    ensures status == Success ==> Took(d, i, base, list, Entry(handle, key, fn))
    ensures status != Success ==> Holds(d, i, base, list, [])
  {
    hide EntriesFor;
    CoveredBase(base, list, i, key, fn);
    ghost var was := base + EntriesFor(list, i);
    assert d.notifyList == was;
    status, handle := d.RegisterKeyNotify(key, fn, refuse);
    if Covered(base, key, fn) {
      var k :| 0 <= k < |was| && Covers(was[k], key, fn) && was[k].handle == handle;
      assert base[k].handle == handle;
    }
  }

  /** Taking a registration back leaves a device as it was, unless it was another client's that covered it: then that
      client's is gone. */
  method GiveBack(d: ExDevice, i: nat, ghost base: seq<Entry>, ghost list: seq<Notify>, ghost e: Entry, handle: nat)
    requires Took(d, i, base, list, e) && handle == e.handle
    modifies d
    ensures Holds(d, i, base, list, []) <==> !Covered(base, e.key, e.fn)
  {
    hide EntriesFor;
    ghost var was := base + EntriesFor(list, i);
    if Covered(base, e.key, e.fn) {
      var k :| 0 <= k < |base| && base[k].handle == e.handle;
      assert d.notifyList == was && was[k] == base[k];
      DropShorter(was, k);
    } else {
      assert d.notifyList == was + [e];
      DropAt(was + [e], |was|);
    }
    var _ := d.UnregisterKeyNotify(handle);
    assert was + [] == was;
  }

  /** The first device that refuses a registration which nothing covers there, or the number of devices. */
  ghost function FirstRefusal(devs: seq<ExDevice>, bases: seq<seq<Entry>>, key: KeyData, fn: NotifyFn,
                              refuse: set<ExDevice>): (n: nat)
    requires |bases| == |devs|
    ensures n <= |devs| && (n < |devs| ==> devs[n] in refuse && !Covered(bases[n], key, fn))
    ensures forall i :: 0 <= i < n ==> devs[i] in refuse ==> Covered(bases[i], key, fn)
  {
    if devs == [] || (devs[0] in refuse && !Covered(bases[0], key, fn)) then 0
    else 1 + FirstRefusal(devs[1..], bases[1..], key, fn, refuse)
  }

  /** No other client covers the registration on the first n devices. */
  ghost predicate FreeOn(bases: seq<seq<Entry>>, n: nat, key: KeyData, fn: NotifyFn) {
    forall i :: 0 <= i < n && i < |bases| ==> !Covered(bases[i], key, fn)
  }

  ghost predicate AllHold(devs: seq<ExDevice>, bases: seq<seq<Entry>>, list: seq<Notify>)
    reads devs
  {
    |bases| == |devs| && forall i :: 0 <= i < |devs| ==> Holds(devs[i], i, bases[i], list, [])
  }

  /** Register on every device in turn; if one refuses, unregister from those before it. The devices are as they
      were, or all have the registration, exactly when no other client's covered it where it was tried. */
  method RegisterOnAll(devs: seq<ExDevice>, room: nat, ghost bases: seq<seq<Entry>>, ghost list: seq<Notify>,
                       key: KeyData, fn: NotifyFn, refuse: set<ExDevice>)
    returns (status: Status, handles: seq<nat>)
    requires |devs| <= room && forall i, j :: 0 <= i < j < |devs| ==> devs[i] != devs[j]
    requires AllHold(devs, bases, list) && !AnyHits(list, key, fn)
    modifies devs
    ensures var n := FirstRefusal(devs, bases, key, fn, refuse);
      && (status == Success <==> n == |devs|)
      && (status != Success ==> (AllHold(devs, bases, list) <==> FreeOn(bases, n, key, fn)))
    ensures status == Success ==> |handles| == room
    ensures status == Success ==>
      forall i :: 0 <= i < |devs| ==> Took(devs[i], i, bases[i], list, Entry(handles[i], key, fn))
  {
    hide Holds, Took, Covered, EntriesFor;
    handles := seq(room, _ => 0);
    var index := 0;
    ghost var n := FirstRefusal(devs, bases, key, fn, refuse);
    while index < |devs|
      invariant index <= n && |handles| == room
      invariant forall i :: 0 <= i < index ==> Took(devs[i], i, bases[i], list, Entry(handles[i], key, fn))
      invariant forall i :: index <= i < |devs| ==> Holds(devs[i], i, bases[i], list, [])
    {
      var h;
      status, h := TakeOne(devs[index], index, bases[index], list, key, fn, devs[index] in refuse);
      if status != Success {
        UnregisterFirst(devs, index, bases, list, handles, key, fn);
        return;
      }
      handles := handles[index := h];
      index := index + 1;
    }
    status := Success;
  }

  // The undoing loop: devices below index give the registration back.
  method UnregisterFirst(devs: seq<ExDevice>, index: nat, ghost bases: seq<seq<Entry>>, ghost list: seq<Notify>,
                         handles: seq<nat>, ghost key: KeyData, ghost fn: NotifyFn)
    requires index < |devs| <= |handles| && forall i, j :: 0 <= i < j < |devs| ==> devs[i] != devs[j]
    requires |bases| == |devs|
    requires forall i :: 0 <= i < index ==> Took(devs[i], i, bases[i], list, Entry(handles[i], key, fn))
    requires forall i :: index <= i < |devs| ==> Holds(devs[i], i, bases[i], list, [])
    modifies devs
    ensures AllHold(devs, bases, list) <==> FreeOn(bases, index, key, fn)
  {
    hide Holds, Took, Covered, EntriesFor;
    var k := index;
    while k != 0
      invariant 0 <= k <= index
      invariant forall i :: 0 <= i < k ==> Took(devs[i], i, bases[i], list, Entry(handles[i], key, fn))
      invariant forall i :: k <= i < index ==> (Holds(devs[i], i, bases[i], list, []) <==> !Covered(bases[i], key, fn))
      invariant forall i :: index <= i < |devs| ==> Holds(devs[i], i, bases[i], list, [])
    {
      k := k - 1;
      GiveBack(devs[k], k, bases[k], list, Entry(handles[k], key, fn), handles[k]);
    }
  }

  class TextInSplitter {
    var textInExList: seq<ExDevice>
    var textInExListCount: nat  // the devices there is room for
    var notifyList: seq<Notify>
    var nextId: nat
    ghost var bases: seq<seq<Entry>>  // what other clients had registered on each device when it was attached

    constructor ()
      ensures Valid() && textInExList == [] && notifyList == []
    {
      textInExList, textInExListCount, notifyList, nextId, bases := [], CONSOLE_SPLITTER_ALLOC_UNIT, [], 0, [];
    }

    ghost predicate Listed()
      reads this
    {
      && |textInExList| <= textInExListCount && 0 < textInExListCount
      && (forall i, j :: 0 <= i < j < |textInExList| ==> textInExList[i] != textInExList[j])
      && ListOk(notifyList, textInExListCount, nextId) && |bases| == |textInExList|
    }

    /** The splitter's live registrations are exactly the product of the attached devices and the notify list: device
        i holds, in order, one registration for each entry, under the entry's handle i, behind what other clients
        had there. */
    ghost predicate Valid()
      reads this, textInExList
    {
      Listed() && AllHold(textInExList, bases, notifyList)
    }

    method FindHit(key: KeyData, fn: NotifyFn) returns (k: nat)
      ensures k <= |notifyList| && (k < |notifyList| ==> Hits(notifyList[k], key, fn))
      ensures AnyHits(notifyList, key, fn) <==> k < |notifyList|
    {
      k := 0;
      while k < |notifyList|
        invariant k <= |notifyList| && forall j :: 0 <= j < k ==> !Hits(notifyList[j], key, fn)
      {
        if IsKeyRegistered(notifyList[k].key, key) {
          if notifyList[k].fn == fn {
            return;
          }
        }
        k := k + 1;
      }
    }

    /** A registration is made on every device or on none. The product is kept exactly when no other client's
        registration covers it on the devices up to the first that refuses. */
    method RegisterKeyNotify(key: KeyData, fn: NotifyFn, refuse: set<ExDevice>) returns (status: Status, id: nat)
      requires Valid()
      modifies this`notifyList, this`nextId, textInExList
      ensures Listed()
      ensures fn == 0 || AnyHits(old(notifyList), key, fn) ==> Valid() && notifyList == old(notifyList)
      ensures fn == 0 ==> status == InvalidParameter
      ensures fn != 0 && AnyHits(old(notifyList), key, fn) ==> status == Success
      ensures fn != 0 && AnyHits(old(notifyList), key, fn) ==>
        exists j :: 0 <= j < |notifyList| && Hits(notifyList[j], key, fn) && notifyList[j].id == id
      ensures fn != 0 && !AnyHits(old(notifyList), key, fn) ==>
        var n := FirstRefusal(textInExList, bases, key, fn, refuse);
        && (status == Success <==> n == |textInExList|)
        && (Valid() <==> FreeOn(bases, n, key, fn))
      ensures fn != 0 && !AnyHits(old(notifyList), key, fn) && status == Success ==>
        exists h :: notifyList == old(notifyList) + [Notify(id, key, fn, h)]
      ensures status != Success ==> notifyList == old(notifyList)
    {
      hide Took, Holds, AllHold, FreeOn, Covered, IsKeyRegistered;
      id := 0;
      if fn == 0 {
        return InvalidParameter, id;
      }
      var k := FindHit(key, fn);
      if k < |notifyList| {
        return Success, notifyList[k].id;
      }
      ghost var was := notifyList;
      var handles;
      status, handles := RegisterOnAll(textInExList, textInExListCount, bases, notifyList, key, fn, refuse);
      if status != Success {
        return;
      }
      id := nextId;
      nextId := nextId + 1;
      notifyList := notifyList + [Notify(id, key, fn, handles)];
      TookAll(textInExList, bases, was, notifyList[|was|]);
    }

    /** Take a registration back from every device; the others stay. */
    method UnregisterKeyNotify(id: nat) returns (status: Status)
      requires Valid()
      modifies this`notifyList, textInExList
      ensures Valid()
      ensures status == Success <==> exists j :: 0 <= j < |old(notifyList)| && old(notifyList)[j].id == id
      ensures status == Success ==>
        exists j :: 0 <= j < |old(notifyList)| && old(notifyList)[j].id == id
          && notifyList == old(notifyList)[..j] + old(notifyList)[j + 1..]
      ensures status != Success ==> notifyList == old(notifyList)
    {
      hide AllHold;
      var k := 0;
      while k < |notifyList| && notifyList[k].id != id
        invariant k <= |notifyList| && forall j :: 0 <= j < k ==> notifyList[j].id != id
      {
        k := k + 1;
      }
      if k == |notifyList| {
        return InvalidParameter;
      }
      UnregisterFromAll(textInExList, bases, notifyList, k);
      notifyList := notifyList[..k] + notifyList[k + 1..];
      status := Success;
    }

    // Room for another 32 devices, in the device list and in every handle list.
    method GrowHandles()
      requires Valid()
      modifies this`textInExListCount, this`notifyList
      ensures Valid() && Renamed(old(notifyList), notifyList)
      ensures textInExListCount == old(textInExListCount) + CONSOLE_SPLITTER_ALLOC_UNIT
    {
      hide Holds;
      var grown: seq<Notify> := [];
      while |grown| < |notifyList|
        invariant |grown| <= |notifyList|
        invariant forall j :: 0 <= j < |grown| ==> grown[j] == Grown(notifyList[j])
      {
        grown := grown + [Grown(notifyList[|grown|])];
      }
      ghost var was := notifyList;
      textInExListCount := textInExListCount + CONSOLE_SPLITTER_ALLOC_UNIT;
      notifyList := grown;
      RenamedOk(was, grown);
      forall i | 0 <= i < |textInExList|
        ensures Holds(textInExList[i], i, bases[i], notifyList, [])
      {
        assert Holds(textInExList[i], i, bases[i], was, []);
        HoldsSame(textInExList[i], i, bases[i], was, grown);
      }
    }

    /** Attach a device: every registration is made on it, or, when it refuses one, none at all. refuse names the
        positions in the notify list that the device refuses. The product is kept, or a refusing device is left as
        it was, exactly when no other client's registration covers one of those tried. */
    method AddExDevice(dev: ExDevice, refuse: set<nat>) returns (status: Status)
      requires Valid() && dev !in textInExList && dev.Valid()
      modifies this`textInExList, this`textInExListCount, this`notifyList, this`bases, dev
      ensures Listed() && Renamed(old(notifyList), notifyList)
      ensures var base, wants := old(dev.notifyList), Wants(old(notifyList));
        var n := FirstRefused(base, wants, refuse);
        && (status == Success <==> n == |wants|)
        && (status == Success ==> textInExList == old(textInExList) + [dev] && bases == old(bases) + [base])
        && (status == Success ==> (Valid() <==> AllFree(base, wants)))
        && (status != Success ==> Valid() && textInExList == old(textInExList) && bases == old(bases))
        && (status != Success ==> (dev.notifyList == base <==> AllFree(base, wants[..n])))
    {
      hide Holds, EntriesFor, AllHold, Joined, AllFree, Renamed, FirstRefused, ListOk;
      ListRenamed(notifyList, notifyList);
      if |textInExList| >= textInExListCount {
        GrowHandles();
        ListRenamed(old(notifyList), notifyList);
      }
      ghost var base, wants := dev.notifyList, Wants(notifyList);
      ghost var stop := FirstRefused(base, wants, refuse);
      var n := |textInExList|;
      JoinedNone(dev, n, base, notifyList, textInExListCount, nextId);
      var k := 0;
      while k < |notifyList|
        invariant k <= stop && |notifyList| == |wants| && n == |textInExList| < textInExListCount && Valid()
        invariant textInExList == old(textInExList) && bases == old(bases) && Renamed(old(notifyList), notifyList)
        invariant Wants(notifyList) == wants && Joined(dev, n, base, notifyList[..k])
      {
        ghost var before := notifyList;
        FirstRefusedAt(base, wants, refuse, k);
        status := RegisterNext(dev, n, k, base, refuse);
        if status != Success {
          UnregisterLast(dev, n, k, base);
          WantsTake(notifyList, k);
          return;
        }
        RenamedTwice(old(notifyList), before, notifyList);
        ListRenamed(before, notifyList);
        k := k + 1;
      }
      FirstRefusedAt(base, wants, refuse, k);
      assert notifyList[..k] == notifyList;
      ghost var others := textInExList;
      textInExList := textInExList + [dev];
      bases := bases + [base];
      AttachedOne(others, bases[..|others|], dev, base, notifyList);
      status := Success;
    }

    // One step of attaching: registration k is made on the device, which is to become number n.
    method RegisterNext(dev: ExDevice, n: nat, k: nat, ghost base: seq<Entry>, refuse: set<nat>)
      returns (status: Status)
      requires Valid() && dev !in textInExList && k < |notifyList| && n == |textInExList| < textInExListCount
      requires Joined(dev, n, base, notifyList[..k])
      modifies this`notifyList, dev
      ensures Valid() && Renamed(old(notifyList), notifyList)
      ensures status == Success <==> k !in refuse || Covered(base, notifyList[k].key, notifyList[k].fn)
      ensures Joined(dev, n, base, notifyList[..if status == Success then k + 1 else k])
      ensures status != Success ==> notifyList == old(notifyList)
    {
      hide Holds, EntriesFor, Covered, Joined, JoinedOne;
      var h;
      status, h := JoinOne(dev, n, base, notifyList[..k], notifyList[k].key, notifyList[k].fn, k in refuse);
      if status == Success {
        ghost var was := notifyList;
        notifyList := notifyList[k := notifyList[k].(handles := notifyList[k].handles[n := h])];
        RenamedOk(was, notifyList);
        JoinedNext(dev, n, base, was, notifyList, k);
        forall i | 0 <= i < |textInExList|
          ensures Holds(textInExList[i], i, bases[i], notifyList, [])
        {
          HoldsSame(textInExList[i], i, bases[i], was, notifyList);
        }
      }
    }

    // Undoing an attachment: the k registrations made are taken back, the latest first.
    method UnregisterLast(dev: ExDevice, n: nat, k: nat, ghost base: seq<Entry>)
      requires k <= |notifyList| && Joined(dev, n, base, notifyList[..k])
      modifies dev
      ensures dev.Valid() && (dev.notifyList == base <==> AllFree(base, Wants(notifyList[..k])))
    {
      var j := k;
      ghost var rest := base;
      ghost var list := notifyList[..k];
      OwnApart(dev, n, base, list);
      assert list[..k] == list;
      while j != 0
        invariant 0 <= j <= k && dev.Valid() && (forall m :: 0 <= m < k ==> n < |list[m].handles|)
        invariant dev.notifyList == rest + Own(base, list[..j], n)
        invariant |rest| <= |base| && (|rest| == |base| ==> rest == base)
        invariant |rest| == |base| <==> AllFree(base, Wants(list[j..]))
        invariant Apart(base, Own(base, list[..j], n))
      {
        j := j - 1;
        TakenBack(dev, n, base, list, j, rest);
        rest := Left(base, list[j], n, rest);
        var _ := dev.UnregisterKeyNotify(notifyList[j].handles[n]);
      }
      assert list[0..] == list;
    }
  }

  ghost predicate ListOk(list: seq<Notify>, count: nat, nextId: nat) {
    && (forall j :: 0 <= j < |list| ==> |list[j].handles| == count && list[j].id < nextId)
    && (forall j, k :: 0 <= j < k < |list| ==> list[j].id != list[k].id)
    && Uncovered(list)
  }

  function Grown(n: Notify): Notify {
    n.(handles := n.handles + seq(CONSOLE_SPLITTER_ALLOC_UNIT, _ => 0))
  }

  // What a registration asks for.
  datatype Want = Want(key: KeyData, fn: NotifyFn)

  ghost function Wants(list: seq<Notify>): (w: seq<Want>)
    ensures |w| == |list|
  {
    seq(|list|, j requires 0 <= j < |list| => Want(list[j].key, list[j].fn))
  }

  /** No registration of another client covers one of those wanted. */
  ghost predicate AllFree(base: seq<Entry>, wants: seq<Want>) {
    forall j :: 0 <= j < |wants| ==> !Covered(base, wants[j].key, wants[j].fn)
  }

  /** The first position that is refused and not covered, or the number of positions. */
  ghost function FirstRefused(base: seq<Entry>, wants: seq<Want>, refuse: set<nat>): (n: nat)
    ensures n <= |wants|
    ensures n < |wants| ==> n in refuse && !Covered(base, wants[n].key, wants[n].fn)
    ensures forall j :: 0 <= j < n ==> j in refuse ==> Covered(base, wants[j].key, wants[j].fn)
  {
    if wants == [] then 0
    else
      var last := |wants| - 1;
      var n := FirstRefused(base, wants[..last], refuse);
      if n < last || (last in refuse && !Covered(base, wants[last].key, wants[last].fn)) then n else n + 1
  }

  lemma FirstRefusedAt(base: seq<Entry>, wants: seq<Want>, refuse: set<nat>, k: nat)
    requires k <= FirstRefused(base, wants, refuse)
    ensures k < |wants| ==>
      (k == FirstRefused(base, wants, refuse) <==> k in refuse && !Covered(base, wants[k].key, wants[k].fn))
  {
  }

  /** The same registrations, though their handle lists may have grown or been written to. */
  ghost predicate Renamed(was: seq<Notify>, list: seq<Notify>) {
    && |list| == |was|
    && forall j :: 0 <= j < |list| ==>
      list[j].id == was[j].id && list[j].key == was[j].key && list[j].fn == was[j].fn
  }

  lemma RenamedTwice(a: seq<Notify>, b: seq<Notify>, c: seq<Notify>)
    requires Renamed(a, b) && Renamed(b, c)
    ensures Renamed(a, c)
  {
  }

  lemma ListRenamed(was: seq<Notify>, list: seq<Notify>)
    ensures Renamed(was, was) && (Renamed(was, list) ==> Wants(was) == Wants(list))
    ensures forall k :: 0 <= k < |list| ==> Wants(list)[k] == Want(list[k].key, list[k].fn)
  {
  }

  lemma WantsTake(list: seq<Notify>, k: nat)
    requires k <= |list|
    ensures Wants(list[..k]) == Wants(list)[..k]
  {
  }

  lemma RenamedOk(was: seq<Notify>, list: seq<Notify>)
    requires Renamed(was, list) && Uncovered(was)
    ensures Uncovered(list)
  {
    forall j, k | 0 <= j < k < |list|
      ensures !Hits(list[j], list[k].key, list[k].fn)
    {
      assert !Hits(was[j], was[k].key, was[k].fn);
    }
  }

  // Device i does not see what is written to the handles of others.
  lemma HoldsSame(d: ExDevice, i: nat, base: seq<Entry>, was: seq<Notify>, list: seq<Notify>)
    requires Holds(d, i, base, was, []) && Renamed(was, list)
    requires forall j :: 0 <= j < |list| ==> i < |list[j].handles| && list[j].handles[i] == was[j].handles[i]
    ensures Holds(d, i, base, list, [])
  {
    assert EntriesFor(list, i) == EntriesFor(was, i);
  }

  /** Once every device has taken a registration, the product is kept exactly when it was covered on none. */
  lemma TookAll(devs: seq<ExDevice>, bases: seq<seq<Entry>>, was: seq<Notify>, n: Notify)
    requires |bases| == |devs| <= |n.handles|
    requires forall i :: 0 <= i < |devs| ==> Took(devs[i], i, bases[i], was, Entry(n.handles[i], n.key, n.fn))
    ensures AllHold(devs, bases, was + [n]) <==> FreeOn(bases, |devs|, n.key, n.fn)
  {
    forall i | 0 <= i < |devs|
      ensures Holds(devs[i], i, bases[i], was + [n], []) <==> !Covered(bases[i], n.key, n.fn)
    {
      var e := Entry(n.handles[i], n.key, n.fn);
      assert Took(devs[i], i, bases[i], was, e);
      assert EntriesFor(was + [n], i) == EntriesFor(was, i) + [e];
      assert devs[i].notifyList == bases[i] + EntriesFor(was, i) + Added(bases[i], e);
    }
  }

  // Entry k of the notify list is taken back from every device.
  method UnregisterFromAll(devs: seq<ExDevice>, ghost bases: seq<seq<Entry>>, list: seq<Notify>, k: nat)
    requires k < |list| && forall i, j :: 0 <= i < j < |devs| ==> devs[i] != devs[j]
    requires AllHold(devs, bases, list)
    modifies devs
    ensures AllHold(devs, bases, list[..k] + list[k + 1..])
  {
    hide EntriesFor, Drop;
    ghost var rest := list[..k] + list[k + 1..];
    var index := 0;
    while index < |devs|
      invariant index <= |devs|
      invariant forall i :: 0 <= i < index ==> Holds(devs[i], i, bases[i], rest, [])
      invariant forall i :: index <= i < |devs| ==> Holds(devs[i], i, bases[i], list, [])
    {
      assert Holds(devs[index], index, bases[index], list, []);
      HoldsWithout(devs[index], index, bases[index], list, k);
      var _ := devs[index].UnregisterKeyNotify(list[k].handles[index]);
      assert forall j :: 0 <= j < |rest| ==> rest[j] == list[if j < k then j else j + 1];
      index := index + 1;
    }
  }

  lemma HoldsWithout(d: ExDevice, i: nat, base: seq<Entry>, list: seq<Notify>, k: nat)
    requires Holds(d, i, base, list, []) && k < |list|
    ensures Drop(d.notifyList, list[k].handles[i]) == base + EntriesFor(list[..k] + list[k + 1..], i) + []
  {
    DropAt(d.notifyList, |base| + k);
  }

  // ----- a device that is being attached -----

  /** The registrations of its own that a device gets from a list: those that no other client's covers. */
  ghost function Own(base: seq<Entry>, list: seq<Notify>, n: nat): seq<Entry>
    requires forall j :: 0 <= j < |list| ==> n < |list[j].handles|
  {
    if list == [] then []
    else
      var last := list[|list| - 1];
      Own(base, list[..|list| - 1], n) + Added(base, Entry(last.handles[n], last.key, last.fn))
  }

  /** A device on which the registrations of a list have been made. */
  ghost predicate Joined(d: ExDevice, n: nat, base: seq<Entry>, list: seq<Notify>)
    reads d
  {
    && d.Valid() && (forall j :: 0 <= j < |list| ==> n < |list[j].handles|)
    && d.notifyList == base + Own(base, list, n)
    && forall j :: 0 <= j < |list| && Covered(base, list[j].key, list[j].fn) ==> Theirs(base, list[j].handles[n])
  }

  lemma JoinedNone(d: ExDevice, n: nat, base: seq<Entry>, list: seq<Notify>, count: nat, nextId: nat)
    requires d.Valid() && d.notifyList == base
    ensures Joined(d, n, base, list[..0])
  {
  }

  lemma {:induction false} OwnFrom(base: seq<Entry>, list: seq<Notify>, n: nat)
    requires forall j :: 0 <= j < |list| ==> n < |list[j].handles|
    ensures forall e | e in Own(base, list, n) ::
      exists j :: 0 <= j < |list| && list[j].key == e.key && list[j].fn == e.fn
  {
    if list != [] {
      var last := |list| - 1;
      OwnFrom(base, list[..last], n);
      forall e | e in Own(base, list, n)
        ensures exists j :: 0 <= j < |list| && list[j].key == e.key && list[j].fn == e.fn
      {
        if e in Own(base, list[..last], n) {
          var j :| 0 <= j < last && list[..last][j].key == e.key && list[..last][j].fn == e.fn;
          assert list[j].key == e.key;
        }
      }
    }
  }

  /** On such a device, what covers a registration that the list does not is another client's. */
  lemma CoveredOwn(d: ExDevice, n: nat, base: seq<Entry>, list: seq<Notify>, key: KeyData, fn: NotifyFn)
    requires Joined(d, n, base, list) && forall j :: 0 <= j < |list| ==> !Hits(list[j], key, fn)
    ensures Covered(d.notifyList, key, fn) <==> Covered(base, key, fn)
    ensures forall k :: 0 <= k < |d.notifyList| && Covers(d.notifyList[k], key, fn) ==>
      k < |base| && base[k] == d.notifyList[k]
  {
    OwnFrom(base, list, n);
    var own := Own(base, list, n);
    forall k | 0 <= k < |own|
      ensures !Covers(own[k], key, fn)
    {
      assert own[k] in own;
    }
    if Covered(base, key, fn) {
      var k :| 0 <= k < |base| && Covers(base[k], key, fn);
      assert Covers(d.notifyList[k], key, fn);
    }
  }

  /** After one more registration, for which it gave a handle. */
  ghost predicate JoinedOne(d: ExDevice, n: nat, base: seq<Entry>, list: seq<Notify>, e: Entry)
    reads d
  {
    && d.Valid() && (forall j :: 0 <= j < |list| ==> n < |list[j].handles|)
    && d.notifyList == base + Own(base, list, n) + Added(base, e)
    && (forall j :: 0 <= j < |list| && Covered(base, list[j].key, list[j].fn) ==> Theirs(base, list[j].handles[n]))
    && (Covered(base, e.key, e.fn) ==> Theirs(base, e.handle))
  }

  method JoinOne(d: ExDevice, n: nat, ghost base: seq<Entry>, ghost list: seq<Notify>, key: KeyData, fn: NotifyFn,
                 refuse: bool)
    returns (status: Status, handle: nat)
    requires Joined(d, n, base, list) && forall j :: 0 <= j < |list| ==> !Hits(list[j], key, fn)
    modifies d
    ensures status == Success <==> !refuse || Covered(base, key, fn)
    ensures status == Success ==> JoinedOne(d, n, base, list, Entry(handle, key, fn))
    ensures status != Success ==> Joined(d, n, base, list)
  {
    hide Own, Hits;
    CoveredOwn(d, n, base, list, key, fn);
    ghost var was := d.notifyList;
    status, handle := d.RegisterKeyNotify(key, fn, refuse);
    if Covered(base, key, fn) {
      var k :| 0 <= k < |was| && Covers(was[k], key, fn) && was[k].handle == handle;
      assert base[k].handle == handle;
    }
  }

  lemma JoinedNext(d: ExDevice, n: nat, base: seq<Entry>, was: seq<Notify>, list: seq<Notify>, k: nat)
    requires k < |was| == |list| && n < |list[k].handles| && list == was[k := list[k]]
    requires JoinedOne(d, n, base, was[..k], Entry(list[k].handles[n], list[k].key, list[k].fn))
    ensures Joined(d, n, base, list[..k + 1])
  {
    hide Covered, Theirs;
    assert list[..k + 1][..k] == was[..k];
    assert forall j :: 0 <= j < k ==> list[..k + 1][j] == was[..k][j];
    assert Own(base, list[..k + 1], n)
        == Own(base, was[..k], n) + Added(base, Entry(list[k].handles[n], list[k].key, list[k].fn));
  }

  /** All of a list is a device's own exactly when no other client's registration covers one of it. */
  lemma {:induction false} OwnAll(base: seq<Entry>, list: seq<Notify>, n: nat)
    requires forall j :: 0 <= j < |list| ==> n < |list[j].handles|
    ensures |Own(base, list, n)| <= |list|
    ensures |Own(base, list, n)| == |list| <==> AllFree(base, Wants(list))
    ensures AllFree(base, Wants(list)) ==> Own(base, list, n) == EntriesFor(list, n)
  {
    hide Covered;
    if list != [] {
      var last := |list| - 1;
      OwnAll(base, list[..last], n);
      assert Wants(list) == Wants(list[..last]) + [Want(list[last].key, list[last].fn)];
      FreeSnoc(base, Wants(list[..last]), Want(list[last].key, list[last].fn));
      if AllFree(base, Wants(list)) {
        assert EntriesFor(list, n)
            == EntriesFor(list[..last], n) + [Entry(list[last].handles[n], list[last].key, list[last].fn)];
      }
    }
  }

  lemma FreeSnoc(base: seq<Entry>, wants: seq<Want>, w: Want)
    ensures AllFree(base, wants + [w]) <==> AllFree(base, wants) && !Covered(base, w.key, w.fn)
    ensures AllFree(base, [w] + wants) <==> AllFree(base, wants) && !Covered(base, w.key, w.fn)
  {
    var a, b := wants + [w], [w] + wants;
    assert a[|wants|] == w && b[0] == w;
    assert forall j :: 0 <= j < |wants| ==> a[j] == wants[j] && b[j + 1] == wants[j];
    assert forall j :: 0 < j < |b| ==> b[j] == wants[j - 1];
  }

  /** Attaching the device keeps the product exactly when all of the list has become its own. */
  lemma AttachedOne(devs: seq<ExDevice>, bases: seq<seq<Entry>>, dev: ExDevice, base: seq<Entry>, list: seq<Notify>)
    requires AllHold(devs, bases, list) && Joined(dev, |devs|, base, list)
    ensures AllHold(devs + [dev], bases + [base], list) <==> AllFree(base, Wants(list))
  {
    var n := |devs|;
    OwnAll(base, list, n);
    assert Holds(dev, n, base, list, []) <==> AllFree(base, Wants(list)) by {
      assert dev.notifyList == base + Own(base, list, n);
      assert base + EntriesFor(list, n) + [] == base + EntriesFor(list, n);
      if Holds(dev, n, base, list, []) {
        assert |Own(base, list, n)| == |list|;
      }
    }
    hide Holds, AllFree;
    assert (devs + [dev])[n] == dev && (bases + [base])[n] == base;
    assert forall i :: 0 <= i < n ==> (devs + [dev])[i] == devs[i] && (bases + [base])[i] == bases[i];
  }

  // ----- undoing it -----

  /** What the device got of its own has handles unlike those that were there. */
  ghost predicate Apart(base: seq<Entry>, own: seq<Entry>) {
    forall e, b | e in own && b in base :: e.handle != b.handle
  }

  lemma OwnApart(d: ExDevice, n: nat, base: seq<Entry>, list: seq<Notify>)
    requires Joined(d, n, base, list)
    ensures Apart(base, Own(base, list, n))
  {
    var own := Own(base, list, n);
    forall e, b | e in own && b in base
      ensures e.handle != b.handle
    {
      var i :| 0 <= i < |own| && own[i] == e;
      var j :| 0 <= j < |base| && base[j] == b;
      assert d.notifyList[|base| + i] == e && d.notifyList[j] == b;
    }
  }

  lemma {:induction false} DropLeft(a: seq<Entry>, b: seq<Entry>, handle: nat)
    requires forall e | e in b :: e.handle != handle
    ensures Drop(a + b, handle) == Drop(a, handle) + b
  {
    if a == [] {
      assert a + b == b;
      DropNone(b, handle);
    } else if a[0].handle == handle {
      assert (a + b)[1..] == a[1..] + b;
    } else {
      assert (a + b)[1..] == a[1..] + b;
      DropLeft(a[1..], b, handle);
    }
  }

  lemma {:induction false} DropCount(list: seq<Entry>, handle: nat)
    ensures Drop(list, handle) == list || |Drop(list, handle)| == |list| - 1
  {
    if list != [] && list[0].handle != handle {
      DropCount(list[1..], handle);
    }
  }

  /** What is left of the other clients' registrations when registration j is taken back. */
  ghost function Left(base: seq<Entry>, n: Notify, i: nat, rest: seq<Entry>): seq<Entry>
    requires i < |n.handles|
  {
    if Covered(base, n.key, n.fn) then Drop(rest, n.handles[i]) else rest
  }

  /** Registration j goes; if another client's covered it, one of theirs may go instead. */
  lemma TakenBack(d: ExDevice, n: nat, base: seq<Entry>, list: seq<Notify>, j: nat, rest: seq<Entry>)
    requires j < |list| && d.Valid() && (forall m :: 0 <= m < |list| ==> n < |list[m].handles|)
    requires d.notifyList == rest + Own(base, list[..j + 1], n) && Apart(base, Own(base, list[..j + 1], n))
    requires Covered(base, list[j].key, list[j].fn) ==> Theirs(base, list[j].handles[n])
    requires |rest| <= |base| && (|rest| == |base| ==> rest == base)
    requires |rest| == |base| <==> AllFree(base, Wants(list[j + 1..]))
    ensures var left := Left(base, list[j], n, rest);
      && Drop(d.notifyList, list[j].handles[n]) == left + Own(base, list[..j], n)
      && |left| <= |base| && (|left| == |base| ==> left == base)
      && (|left| == |base| <==> AllFree(base, Wants(list[j..])))
    ensures Apart(base, Own(base, list[..j], n))
  {
    hide Covered, AllFree;
    var h, w := list[j].handles[n], Want(list[j].key, list[j].fn);
    var own := Own(base, list[..j], n);
    assert list[..j + 1][..j] == list[..j];
    assert Own(base, list[..j + 1], n) == own + Added(base, Entry(h, w.key, w.fn));
    assert forall e | e in own :: e in Own(base, list[..j + 1], n);
    assert Wants(list[j..]) == [w] + Wants(list[j + 1..]);
    FreeSnoc(base, Wants(list[j + 1..]), w);
    if Covered(base, w.key, w.fn) {
      var k :| 0 <= k < |base| && base[k].handle == h;
      assert base[k] in base;
      assert d.notifyList == rest + own;
      DropLeft(rest, own, h);
      DropCount(rest, h);
      if rest == base {
        DropShorter(base, k);
      }
    } else {
      var all := rest + own + [Entry(h, w.key, w.fn)];
      assert d.notifyList == all;
      DropAt(all, |rest + own|);
      assert all[..|rest + own|] + all[|rest + own| + 1..] == rest + own;
    }
  }
}
