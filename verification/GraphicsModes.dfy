/** Graphics output modes of the console splitter: the mode buffer is the intersection of what the attached
    devices offer, and a virtual mode is set by finding its resolution on every device. */
module GraphicsModes {
  import opened Helpers

  datatype Resolution = Resolution(horizontal: nat, vertical: nat)

  datatype Info = Info(res: Resolution, bltOnly: bool)

  datatype Status = Success | Unsupported | DeviceError

  const DEFAULT := Resolution(800, 600)

  /** The first mode of a resolution, or the length of the list when there is none. */
  function FirstOf(infos: seq<Info>, res: Resolution): (i: nat)
    ensures i <= |infos| && (i < |infos| ==> infos[i].res == res)
    ensures forall j :: 0 <= j < i ==> infos[j].res != res
  {
    if infos == [] then 0 else if infos[0].res == res then 0 else 1 + FirstOf(infos[1..], res)
  }

  predicate Has(infos: seq<Info>, res: Resolution) { FirstOf(infos, res) < |infos| }

  lemma HasAt(infos: seq<Info>, res: Resolution)
    ensures Has(infos, res) <==> exists i :: 0 <= i < |infos| && infos[i].res == res
  {
  }

  predicate Distinct(infos: seq<Info>) {
    forall i, j :: 0 <= i < j < |infos| ==> infos[i].res != infos[j].res
  }

  // ----- intersection -----

  /** The modes of a buffer that a device has too, each resolution once; the frame buffer is given up. */
  function Common(buffer: seq<Info>, modes: seq<Info>): (r: seq<Info>)
    ensures |r| <= |buffer|
  {
    if buffer == [] then []
    else
      var rest, x := Common(buffer[..|buffer| - 1], modes), buffer[|buffer| - 1];
      if Has(modes, x.res) && !Has(rest, x.res) then rest + [Info(x.res, true)] else rest
  }

  /** It offers exactly the resolutions that both have. */
  lemma {:induction false} CommonHas(buffer: seq<Info>, modes: seq<Info>, res: Resolution)
    ensures Has(Common(buffer, modes), res) <==> Has(buffer, res) && Has(modes, res)
  {
    hide FirstOf;
    if buffer != [] {
      var rest, x := buffer[..|buffer| - 1], buffer[|buffer| - 1];
      CommonHas(rest, modes, res);
      CommonHas(rest, modes, x.res);
      HasSnoc(rest, x, res);
      HasSnoc(Common(rest, modes), Info(x.res, true), res);
      assert buffer == rest + [x];
    }
  }

  lemma HasSnoc(infos: seq<Info>, x: Info, res: Resolution)
    ensures Has(infos + [x], res) <==> Has(infos, res) || x.res == res
  {
    HasAt(infos, res);
    HasAt(infos + [x], res);
    assert (infos + [x])[|infos|] == x;
    assert forall i :: 0 <= i < |infos| ==> (infos + [x])[i] == infos[i];
  }

  lemma {:induction false} CommonDistinct(buffer: seq<Info>, modes: seq<Info>)
    ensures Distinct(Common(buffer, modes))
  {
    if buffer != [] {
      CommonDistinct(buffer[..|buffer| - 1], modes);
      HasAt(Common(buffer[..|buffer| - 1], modes), buffer[|buffer| - 1].res);
    }
  }

  /** In the buffer's order, by where each resolution first stands in it, and with no frame buffer. */
  lemma {:induction false} CommonOrder(buffer: seq<Info>, modes: seq<Info>)
    ensures var r := Common(buffer, modes);
      && (forall i :: 0 <= i < |r| ==> r[i].bltOnly && FirstOf(buffer, r[i].res) < |buffer|)
      && (forall i, j :: 0 <= i < j < |r| ==> FirstOf(buffer, r[i].res) < FirstOf(buffer, r[j].res))
  {
    hide FirstOf;
    if buffer != [] {
      var rest, x := buffer[..|buffer| - 1], buffer[|buffer| - 1];
      CommonOrder(rest, modes);
      CommonHas(rest, modes, x.res);
      var r := Common(rest, modes);
      forall i | 0 <= i < |r|
        ensures FirstOf(buffer, r[i].res) == FirstOf(rest, r[i].res)
      {
        FirstStays(rest, x, r[i].res);
      }
      FirstStays(rest, x, x.res);
      assert buffer == rest + [x];
    }
  }

  lemma FirstStays(infos: seq<Info>, x: Info, res: Resolution)
    ensures Has(infos, res) ==> FirstOf(infos + [x], res) == FirstOf(infos, res)
    ensures !Has(infos, res) && x.res == res ==> FirstOf(infos + [x], res) == |infos|
  {
    var a, k := infos + [x], FirstOf(infos + [x], res);
    assert a[|infos|] == x && forall i :: 0 <= i < |infos| ==> a[i] == infos[i];
  }

  /** The nested search that fills the new buffer. */
  method Intersect(buffer: seq<Info>, modes: seq<Info>) returns (matched: seq<Info>)
    ensures matched == Common(buffer, modes)
  {
    matched := [];
    var index := 0;
    while index < |buffer|
      invariant index <= |buffer| && matched == Common(buffer[..index], modes)
    {
      assert buffer[..index + 1][..index] == buffer[..index];
      var mode := buffer[index];
      var numberIndex := Search(modes, mode.res);
      if numberIndex < |modes| {
        var already := Search(matched, mode.res);
        if already == |matched| {
          matched := matched + [Info(mode.res, true)];
        }
      }
      index := index + 1;
    }
    assert buffer[..index] == buffer;
  }

  method Search(infos: seq<Info>, res: Resolution) returns (i: nat)
    ensures i == FirstOf(infos, res)
  {
    i := 0;
    while i < |infos| && infos[i].res != res
      invariant i <= |infos| && forall j :: 0 <= j < i ==> infos[j].res != res
    {
      i := i + 1;
    }
  }

  // ----- devices -----

  class GopDevice {
    const modes: seq<Info>
    const refuses: set<nat>  // modes whose setting fails
    var mode: nat

    constructor (modes: seq<Info>, refuses: set<nat>, mode: nat)
      requires mode < |modes|
      ensures Valid() && this.modes == modes && this.refuses == refuses
    {
      this.modes, this.refuses, this.mode := modes, refuses, mode;
    }

    predicate Valid()
      reads this
    {
      mode < |modes|
    }

    function Current(): Info
      requires Valid()
      reads this
    {
      modes[mode]
    }

    method SetMode(n: nat) returns (status: Status)
      requires Valid()
      modifies this
      ensures Valid()
      ensures status == Success <==> n < |modes| && n !in refuses
      ensures mode == if status == Success then n else old(mode)
    {
      if n >= |modes| {
        return Unsupported;
      }
      if n in refuses {
        return DeviceError;
      }
      mode := n;
      status := Success;
    }

    // The device's own mode of a resolution set, unless it is in that resolution.
    method Bring(res: Resolution) returns (status: Status)
      requires Valid()
      modifies this
      ensures Valid()
      ensures status == Success ==> Current().res == res
      ensures Has(modes, res) && refuses == {} ==> status == Success
      ensures status == Success <==> res == old(Current().res) || Takes(this, res)
      ensures mode == if res == old(Current().res) then old(mode) else Brought(this, res, old(mode))
    {
      status := Success;
      if res != Current().res {
        var numberIndex := Search(modes, res);
        status := SetMode(numberIndex);
      }
    }
  }

  /** A device that will take the mode the splitter picks for a resolution. */
  predicate Takes(d: GopDevice, res: Resolution) { Has(d.modes, res) && FirstOf(d.modes, res) !in d.refuses }

  // The mode of a device that was asked for its own mode of a resolution.
  function Brought(d: GopDevice, res: Resolution, was: nat): nat {
    if Takes(d, res) then FirstOf(d.modes, res) else was
  }

  ghost predicate Willing(devs: seq<GopDevice>) {
    forall i :: 0 <= i < |devs| ==> devs[i].refuses == {}
  }

  /** All devices take the mode that is picked for a resolution. */
  ghost predicate AllTake(devs: seq<GopDevice>, res: Resolution) {
    forall i :: 0 <= i < |devs| ==> Takes(devs[i], res)
  }

  ghost predicate AllValid(devs: seq<GopDevice>)
    reads devs
  {
    && (forall i :: 0 <= i < |devs| ==> devs[i].Valid())
    && forall i, j :: 0 <= i < j < |devs| ==> devs[i] != devs[j]
  }

  /** Every device in a resolution. */
  ghost predicate AllAt(devs: seq<GopDevice>, res: Resolution)
    reads devs
  {
    forall i :: 0 <= i < |devs| ==> devs[i].Valid() && devs[i].Current().res == res
  }

  lemma ValidLast(devs: seq<GopDevice>, dev: GopDevice)
    requires AllValid(devs + [dev])
    ensures AllValid(devs) && dev.Valid() && dev !in devs
  {
    var all := devs + [dev];
    assert all[|devs|] == dev;
    assert forall i :: 0 <= i < |devs| ==> all[i] == devs[i];
  }

  lemma ValidMore(devs: seq<GopDevice>, dev: GopDevice)
    requires AllValid(devs) && dev.Valid() && dev !in devs
    ensures AllValid(devs + [dev])
  {
  }

  lemma AtMore(devs: seq<GopDevice>, dev: GopDevice, res: Resolution)
    requires AllAt(devs, res) && dev.Valid()
    ensures dev.Current().res == res ==> AllAt(devs + [dev], res)
  {
  }

  // The last of a number of devices brought to the resolution that the others are in.
  method BringLast(devs: seq<GopDevice>, dev: GopDevice, res: Resolution) returns (status: Status)
    requires devs != [] && devs[|devs| - 1] == dev && AllValid(devs) && AllAt(devs[..|devs| - 1], res)
    modifies dev
    ensures AllValid(devs) && (status == Success ==> AllAt(devs, res))
    ensures old(dev.Valid())
    ensures Has(dev.modes, res) && dev.refuses == {} ==> status == Success
    ensures status == Success <==> res == old(dev.Current().res) || Takes(dev, res)
    ensures dev.mode == if res == old(dev.Current().res) then old(dev.mode) else Brought(dev, res, old(dev.mode))
  {
    hide Has, FirstOf, AllAt, AllValid, Takes, Brought, GopDevice.Current, GopDevice.Valid;
    ghost var others := devs[..|devs| - 1];
    assert devs == others + [dev];
    ValidLast(others, dev);
    status := dev.Bring(res);
    ValidMore(others, dev);
    AtMore(others, dev, res);
  }

  // ----- the splitter -----

  const NO_MODE: nat := 0xffff

  /** A buffer that offers exactly the resolutions of all of a number of mode lists, each once if there is more
      than one list. */
  ghost predicate Offers(buffer: seq<Info>, seen: seq<seq<Info>>) {
    && (forall res :: Has(buffer, res) <==> forall k :: 0 <= k < |seen| ==> Has(seen[k], res))
    && (|seen| == 1 ==> buffer == seen[0])
    && (|seen| > 1 ==> Distinct(buffer))
  }

  ghost predicate AllSeen(devs: seq<GopDevice>, seen: seq<seq<Info>>) {
    forall i :: 0 <= i < |devs| ==> devs[i].modes in seen
  }

  lemma SeenMore(devs: seq<GopDevice>, dev: GopDevice, seen: seq<seq<Info>>)
    requires AllSeen(devs, seen)
    ensures AllSeen(devs + [dev], seen + [dev.modes])
  {
    assert (seen + [dev.modes])[|seen|] == dev.modes;
    forall i | 0 <= i < |devs|
      ensures devs[i].modes in seen + [dev.modes]
    {
      assert devs[i].modes in seen;
    }
  }

  lemma OffersOne(modes: seq<Info>)
    ensures Offers(modes, [modes])
  {
    assert [modes][0] == modes;
  }

  lemma OffersMore(buffer: seq<Info>, seen: seq<seq<Info>>, modes: seq<Info>)
    requires Offers(buffer, seen) && |seen| > 0
    ensures Offers(Common(buffer, modes), seen + [modes])
  {
    hide Has, Common;
    CommonDistinct(buffer, modes);
    forall res
      ensures Has(Common(buffer, modes), res)
        <==> forall k :: 0 <= k < |seen + [modes]| ==> Has((seen + [modes])[k], res)
    {
      CommonHas(buffer, modes, res);
      if Has(Common(buffer, modes), res) {
      } else if !Has(modes, res) {
        assert (seen + [modes])[|seen|] == modes;
      } else {
        var k :| 0 <= k < |seen| && !Has(seen[k], res);
        assert (seen + [modes])[k] == seen[k];
      }
    }
  }

  class GopSplitter {
    var devs: seq<GopDevice>  // the attached consoles that have graphics output
    var count: nat
    var modeBuffer: seq<Info>
    var mode: nat
    var info: Info
    ghost var seen: seq<seq<Info>>  // the mode lists intersected since there was no device

    constructor ()
      ensures Valid() && devs == []
    {
      devs, count, modeBuffer, mode, info, seen := [], 0, [Info(DEFAULT, true)], 0, Info(DEFAULT, true), [];
    }

    /** The buffer offers exactly what all the devices had. */
    ghost predicate Offered()
      reads this, devs
    {
      && count == |devs| && AllValid(devs)
      && (count > 0 ==> seen != [] && Offers(modeBuffer, seen) && AllSeen(devs, seen))
    }

    /** While devices are attached, the buffer offers exactly what all of them had, the current mode is one of its
        entries, and every device is in that resolution. */
    ghost predicate Valid()
      reads this, devs
    {
      && Offered()
      && (count > 0 ==> mode < |modeBuffer| && modeBuffer[mode].res == info.res && AllAt(devs, info.res))
    }

    /** Every resolution of the buffer is a real mode of every device, so only a refused setting can fail. */
    lemma Supported(m: nat)
      requires Offered() && m < |modeBuffer|
      ensures forall i :: 0 <= i < |devs| ==> Has(devs[i].modes, modeBuffer[m].res)
      ensures AllTake(devs, modeBuffer[m].res)
        <==> forall i :: 0 <= i < |devs| ==> FirstOf(devs[i].modes, modeBuffer[m].res) !in devs[i].refuses
    {
      HasAt(modeBuffer, modeBuffer[m].res);
      forall i | 0 <= i < |devs|
        ensures Has(devs[i].modes, modeBuffer[m].res)
      {
        var k :| 0 <= k < |seen| && seen[k] == devs[i].modes;
      }
    }

    /** Every device is asked for its own mode of the resolution; an error of one does not stop the others. Between
        other calls every device has such a mode. */
    method SetMode(n: nat) returns (status: Status)
      requires AllValid(devs)
      modifies this`mode, this`info, devs
      ensures AllValid(devs)
      ensures n >= |modeBuffer| ==> status == Unsupported && mode == old(mode) && info == old(info)
      ensures n >= |modeBuffer| ==> forall i :: 0 <= i < |devs| ==> devs[i].mode == old(devs[i].mode)
      ensures n < |modeBuffer| ==> mode == n
      ensures n < |modeBuffer| ==> forall i :: 0 <= i < |devs| ==>
        devs[i].mode == Brought(devs[i], modeBuffer[n].res, old(devs[i].mode))
      ensures n < |modeBuffer| ==>
        (status == Success <==> AllTake(devs, modeBuffer[n].res))
      ensures old(Offered()) ==> Offered()
      ensures status == Success ==> AllAt(devs, modeBuffer[n].res) && info.res == modeBuffer[n].res
      ensures old(Valid()) && (n >= |modeBuffer| || status == Success) ==> Valid()
    {
      if n >= |modeBuffer| {
        return Unsupported;
      }
      hide FirstOf, Has, Offers, AllAt, AllSeen, AllTake, Takes, Brought;
      status := SetAll(devs, modeBuffer[n].res);
      mode := n;
      if count == 1 && devs != [] {
        info := devs[|devs| - 1].Current();
      } else {
        info := modeBuffer[n];
      }
    }

    /** What a caller is told about mode n: with one device that device's mode of the number, otherwise the buffer's. */
    ghost function Told(n: nat): Option<Info>
      reads this
      requires n < |modeBuffer| && (count == 1 ==> |devs| == 1)
    {
      if count != 1 then Some(modeBuffer[n])
      else if n < |devs[0].modes| then Some(devs[0].modes[n]) else None
    }

    /** The device that is left, if only one is, has the buffer's resolutions in the same places. */
    ghost predicate InPlace()
      reads this
    {
      count == 1 && |devs| == 1 ==> SameStart(modeBuffer, devs[0].modes)
    }

    /** Every mode number below the number of modes is answered, with a resolution that every attached device has; it is
        the one that setting the mode leads to, for all of them, when the buffer is in place. */
    method QueryMode(n: nat) returns (reply: Option<Info>)
      requires Valid()
      ensures reply.Some? <==> n < |modeBuffer|
      ensures reply.Some? ==> reply == Told(n) && forall i :: 0 <= i < |devs| ==> Has(devs[i].modes, reply.value.res)
      ensures reply.Some? && InPlace() ==> reply.value.res == modeBuffer[n].res
    {
      if n >= |modeBuffer| {
        return None;
      }
      hide Offers, AllTake;
      Supported(n);
      if count == 1 {
        FitsDevice();
        HasAt(devs[0].modes, devs[0].modes[n].res);
        return if n < |devs[0].modes| then Some(devs[0].modes[n]) else None;
      }
      reply := Some(modeBuffer[n]);
    }

    /** The buffer never offers more modes than the one device that is left. */
    lemma FitsDevice()
      requires Valid() && count == 1
      ensures |modeBuffer| <= |devs[0].modes|
    {
      assert devs[0].modes in seen;
      var k :| 0 <= k < |seen| && seen[k] == devs[0].modes;
      if |seen| > 1 {
        forall i | 0 <= i < |modeBuffer|
          ensures Has(devs[0].modes, modeBuffer[i].res)
        {
          HasAt(modeBuffer, modeBuffer[i].res);
        }
        hide Has;
        DistinctFits(modeBuffer, devs[0].modes);
      }
    }

    /** All modes are queried as the resolution that setting them leads to if and only if more than one device is left,
        or the one that is has the buffer's resolutions in the same places. */
    lemma QueryMatchesExactly()
      requires Valid() && count > 0
      ensures (forall n :: 0 <= n < |modeBuffer| ==> Told(n).Some? && Told(n).value.res == modeBuffer[n].res)
        <==> InPlace()
    {
      if count == 1 {
        FitsDevice();
      }
    }

    /** So it is as long as no device has been detached. */
    lemma QueryMatchesAttached(n: nat)
      requires Valid() && |devs| == |seen| > 0 && n < |modeBuffer|
      ensures Told(n).Some? && Told(n).value.res == modeBuffer[n].res
    {
      QueryMatchesExactly();
      assert InPlace();
    }

    /** Attach a device. The buffers must still have a resolution in common. The mode picked from the new buffer is that
        of the resolution the device is in, or else 800 by 600, or else the first. When it is the resolution in force
        already, only the new device is set, unless it is in it too; otherwise all are, and when one refuses, entry 0 is
        overwritten and that is tried on all. */
    method AddDevice(dev: GopDevice) returns (status: Status)
      requires Valid() && dev !in devs && dev.Valid()
      requires count > 0 ==> exists res :: Has(modeBuffer, res) && Has(dev.modes, res)
      modifies this, devs, dev
      ensures devs == old(devs) + [dev] && AllValid(devs)
      ensures Willing(devs) ==> status == Success && Valid()
      ensures var modes := if old(count) == 0 then dev.modes else Common(old(modeBuffer), dev.modes);
        && modes != [] && (status == Success && modeBuffer == modes ==> Valid())
        && (Willing(devs) ==> modeBuffer == modes)
      ensures var was := old(dev.Current().res);
        var modes := if old(count) == 0 then dev.modes else Common(old(modeBuffer), dev.modes);
        var common := if old(count) == 0 then was else old(info.res);
        var p := Place(modes, was);
        && Landed(this, dev, modes, p, common, was, status)
        && ModesForced(devs, dev, modes[p].res, common, was)
      ensures seen == (if old(count) == 0 then [] else old(seen)) + [dev.modes]
    {
      hide Offers, Has, FirstOf, Willing, Place, Brought, GopDevice.Current, Common, Landed;
      hide AllAt, AllValid, AllSeen, GopSplitter.Valid, GopSplitter.Offered, GopDevice.Valid, AllTake;
      Extend(dev);
      var current := PickMode(modeBuffer, dev.Current().res);
      status := ForceMode(dev, current);
    }

    // The buffer narrowed to what a new device has too, and the device in the list.
    method Extend(dev: GopDevice)
      requires Valid() && dev !in devs && dev.Valid()
      requires count > 0 ==> exists res :: Has(modeBuffer, res) && Has(dev.modes, res)
      modifies this
      ensures devs == old(devs) + [dev] && Offered() && AllAt(devs[..|devs| - 1], info.res) && modeBuffer != []
      ensures modeBuffer == if old(count) == 0 then dev.modes else Common(old(modeBuffer), dev.modes)
      ensures seen == (if old(count) == 0 then [] else old(seen)) + [dev.modes]
      ensures info.res == if old(count) == 0 then dev.Current().res else old(info.res)
    {
      hide Offers, Has, Common;
      TakeModes(dev);
      Append(dev);
    }

    method Append(dev: GopDevice)
      requires count == |devs| && AllValid(devs) && AllAt(devs, info.res) && dev !in devs && dev.Valid()
      requires seen != [] && seen[|seen| - 1] == dev.modes && Offers(modeBuffer, seen)
      requires AllSeen(devs, seen[..|seen| - 1])
      modifies this`devs, this`count
      ensures devs == old(devs) + [dev] && Offered() && AllAt(devs[..|devs| - 1], info.res)
    {
      SeenMore(devs, dev, seen[..|seen| - 1]);
      assert seen[..|seen| - 1] + [dev.modes] == seen;
      ValidMore(devs, dev);
      hide Offers, AllAt, Has, AllValid, AllSeen;
      ghost var others := devs;
      devs := devs + [dev];
      count := count + 1;
      assert devs[..|devs| - 1] == others;
    }

    // The mode buffer with a new device: its modes, or what it has of those there were.
    method TakeModes(dev: GopDevice)
      requires Offered() && dev.Valid()
      requires count > 0 ==> exists res :: Has(modeBuffer, res) && Has(dev.modes, res)
      modifies this`modeBuffer, this`mode, this`info, this`seen
      ensures Offers(modeBuffer, seen) && modeBuffer != []
      ensures modeBuffer == if count == 0 then dev.modes else Common(old(modeBuffer), dev.modes)
      ensures seen == (if count == 0 then [] else old(seen)) + [dev.modes]
      ensures info.res == if count == 0 then dev.Current().res else old(info.res)
    {
      hide Offers, Has;
      if count == 0 {
        modeBuffer, mode, info, seen := dev.modes, dev.mode, dev.Current(), [dev.modes];
        OffersOne(dev.modes);
      } else {
        OffersMore(modeBuffer, seen, dev.modes);
        SharedStays(modeBuffer, dev.modes);
        modeBuffer := Intersect(modeBuffer, dev.modes);
        seen := seen + [dev.modes];
        info := Info(info.res, true);
      }
    }

    /** The new device, or all of them, brought to one mode. When one of all refuses it, entry 0 of the buffer is
        overwritten and that is tried instead. */
    method ForceMode(dev: GopDevice, current: nat) returns (status: Status)
      requires Offered() && devs != [] && devs[|devs| - 1] == dev && current < |modeBuffer|
      requires AllAt(devs[..|devs| - 1], info.res)
      modifies this`mode, this`info, this`modeBuffer, devs
      ensures AllValid(devs)
      ensures Willing(devs) ==> status == Success && Valid()
      ensures Willing(devs) ==> modeBuffer == old(modeBuffer)
      ensures status == Success && modeBuffer == old(modeBuffer) ==> Valid()
      ensures Landed(this, dev, old(modeBuffer), current, old(info.res), old(dev.Current().res), status)
      ensures ModesForced(devs, dev, old(modeBuffer)[current].res, old(info.res), old(dev.Current().res))
    {
      hide Offers, Has, FirstOf, AllAt, AllSeen, AllValid, Takes, Brought, GopDevice.Current;
      assert Willing(devs) ==> dev.refuses == {};
      Supported(current);
      assert Willing(devs) ==> AllTake(devs, modeBuffer[current].res);
      hide Willing, AllTake;
      if modeBuffer[current].res == info.res {
        status := JoinMode(dev, current);
      } else {
        mode := NO_MODE;
        status := SetMode(current);
        if status != Success {
          modeBuffer := modeBuffer[0 := Info(DEFAULT, modeBuffer[0].bltOnly)];
          status := SetMode(0);
        }
      }
    }

    // All the others are in the mode already.
    method JoinMode(dev: GopDevice, current: nat) returns (status: Status)
      requires Offered() && devs != [] && devs[|devs| - 1] == dev && current < |modeBuffer|
      requires AllAt(devs[..|devs| - 1], info.res) && modeBuffer[current].res == info.res
      modifies this`mode, dev
      ensures Offered() && mode == current && (status == Success ==> Valid())
      ensures dev.refuses == {} ==> status == Success
      ensures status == Success <==> info.res == old(dev.Current().res) || Takes(dev, info.res)
      ensures ModesForced(devs, dev, info.res, info.res, old(dev.Current().res))
    {
      Supported(current);
      assert Has(devs[|devs| - 1].modes, info.res);
      hide Offers, Has, FirstOf, AllAt, AllValid, AllSeen, Takes, Brought, GopDevice.Current;
      mode := current;
      status := BringLast(devs, dev, info.res);
    }

    /** Detach a device; the buffer is left as it is. */
    method DeleteDevice(k: nat)
      requires Valid() && k < |devs|
      modifies this`devs, this`count
      ensures Valid() && devs == old(devs)[..k] + old(devs)[k + 1..]
    {
      devs := devs[..k] + devs[k + 1..];
      count := count - 1;
    }
  }

  /** The resolutions of one list are, place by place, those a longer one starts with. */
  ghost predicate SameStart(buffer: seq<Info>, modes: seq<Info>) {
    |buffer| <= |modes| && forall n :: 0 <= n < |buffer| ==> buffer[n].res == modes[n].res
  }

  /** Distinct resolutions that a list all has are no more than its length. */
  lemma {:induction false} DistinctFits(buffer: seq<Info>, modes: seq<Info>)
    requires Distinct(buffer) && forall i :: 0 <= i < |buffer| ==> Has(modes, buffer[i].res)
    ensures |buffer| <= |modes|
  {
    if buffer != [] {
      var last := |buffer| - 1;
      var k := FirstOf(modes, buffer[last].res);
      var fewer := modes[..k] + modes[k + 1..];
      forall i | 0 <= i < last
        ensures Has(fewer, buffer[i].res)
      {
        var j := FirstOf(modes, buffer[i].res);
        assert fewer[if j < k then j else j - 1] == modes[j];
        HasAt(fewer, buffer[i].res);
      }
      DistinctFits(buffer[..last], fewer);
    }
  }

  /** The first entry of a resolution, or else the first of 800 by 600, or else entry 0. */
  function Place(buffer: seq<Info>, res: Resolution): (p: nat)
    requires buffer != []
    ensures p < |buffer|
    ensures Has(buffer, res) ==> buffer[p].res == res && forall j :: 0 <= j < p ==> buffer[j].res != res
    ensures !Has(buffer, res) && Has(buffer, DEFAULT) ==>
      buffer[p].res == DEFAULT && forall j :: 0 <= j < p ==> buffer[j].res != DEFAULT
    ensures !Has(buffer, res) && !Has(buffer, DEFAULT) ==> p == 0
  {
    if Has(buffer, res) then FirstOf(buffer, res) else if Has(buffer, DEFAULT) then FirstOf(buffer, DEFAULT) else 0
  }

  /** The splitter after entry p of the buffer was forced: it stays at p when only dev had to be asked or all take it,
      and otherwise entry 0 is overwritten with 800 by 600 and in force. */
  ghost predicate Landed(g: GopSplitter, dev: GopDevice, modes: seq<Info>, p: nat, common: Resolution, was: Resolution,
                         status: Status)
    requires p < |modes|
    reads g
  {
    var res := modes[p].res;
    if res == common || AllTake(g.devs, res) then
      && g.modeBuffer == modes && g.mode == p
      && (status == Success <==> res != common || common == was || Takes(dev, common))
    else
      && g.modeBuffer == modes[0 := Info(DEFAULT, modes[0].bltOnly)] && g.mode == 0
      && (status == Success <==> AllTake(g.devs, DEFAULT))
  }

  /** The devices after the mode of resolution res was forced, when dev has joined those in resolution common from
      resolution was: with the resolution in force only dev is asked, unless it is in it already; otherwise all are,
      and asked for 800 by 600 after that when one does not take it. */
  twostate predicate ModesForced(devs: seq<GopDevice>, dev: GopDevice, res: Resolution, common: Resolution,
                                 was: Resolution)
    reads devs
  {
    forall d | d in devs ::
      d.mode ==
      if res == common then if d == dev && was != res then Brought(d, res, old(d.mode)) else old(d.mode)
      else if AllTake(devs, res) then Brought(d, res, old(d.mode))
      else Brought(d, DEFAULT, Brought(d, res, old(d.mode)))
  }

  method PickMode(buffer: seq<Info>, res: Resolution) returns (current: nat)
    requires buffer != []
    ensures current == Place(buffer, res)
  {
    current := 0;
    var index := Search(buffer, res);
    if index < |buffer| {
      current := index;
    } else {
      index := Search(buffer, DEFAULT);
      if index < |buffer| {
        current := index;
      }
    }
  }

  lemma SharedStays(buffer: seq<Info>, modes: seq<Info>)
    requires exists res :: Has(buffer, res) && Has(modes, res)
    ensures Common(buffer, modes) != []
  {
    var res :| Has(buffer, res) && Has(modes, res);
    CommonHas(buffer, modes, res);
  }

  /** After one of two devices is detached it may not match: here mode 0 is queried as resolution a and set as b. */
  method DetachedMismatch(a: Info, b: Info) returns (g: GopSplitter, left: GopDevice, told: Option<Info>, done: Status)
    requires a.res != b.res
    ensures fresh(g) && g.Valid() && g.devs == [left] && left.Valid() && told == Some(a)
    ensures done == Success && left.Current().res == b.res
  {
    hide Offers, Has, FirstOf;
    g, left := AttachTwo(a, b);
    g.DeleteDevice(1);
    assert g.devs == [left];
    told := g.QueryMode(0);
    g.Supported(0);
    done := g.SetMode(0);
  }

  method AttachTwo(a: Info, b: Info) returns (g: GopSplitter, left: GopDevice)
    requires a.res != b.res
    ensures fresh(g) && fresh(left) && g.Valid() && |g.devs| == 2 && g.devs[0] == left && fresh(g.devs[1])
    ensures left.modes == [a, b] && left.refuses == {} && g.modeBuffer == [Info(b.res, true)]
  {
    hide Offers, Has, FirstOf, AllAt, AllTake, Common, GopSplitter.Valid, GopSplitter.Offered, Landed, ModesForced;
    hide AllValid, AllSeen, Place, GopDevice.Current;
    OneOffered(a, b);
    g, left := AttachOne([a, b]);
    var other := new GopDevice([b], {}, 0);
    var _ := g.AddDevice(other);
    assert Willing(g.devs);
  }

  method AttachOne(modes: seq<Info>) returns (g: GopSplitter, d: GopDevice)
    requires modes != []
    ensures fresh(g) && fresh(d) && g.Valid() && g.devs == [d] && g.count == 1
    ensures d.modes == modes && d.refuses == {} && g.modeBuffer == modes
  {
    hide Offers, Has, FirstOf, AllAt, AllTake, Common;
    g := new GopSplitter();
    d := new GopDevice(modes, {}, 0);
    var _ := g.AddDevice(d);
    assert Willing(g.devs);
  }

  lemma OneOffered(a: Info, b: Info)
    requires a.res != b.res
    ensures Common([a, b], [b]) == [Info(b.res, true)] && Has([a, b], b.res) && Has([b], b.res)
  {
    assert [a, b][1] == b;
    HasAt([a, b], b.res);
    assert [a, b][..1] == [a] && [a][..0] == [];
    assert Common([], [b]) == [] && !Has([b], a.res) && Has([b], b.res);
    assert Common([a], [b]) == [];
  }

  method SetAll(devs: seq<GopDevice>, res: Resolution) returns (status: Status)
    requires AllValid(devs)
    modifies devs
    ensures AllValid(devs)
    ensures status == Success <==> AllTake(devs, res)
    ensures status == Success ==> AllAt(devs, res)
    ensures forall i :: 0 <= i < |devs| ==> devs[i].mode == Brought(devs[i], res, old(devs[i].mode))
  {
    status := Success;
    var index := 0;
    while index < |devs|
      invariant index <= |devs| && AllValid(devs)
      invariant status == Success <==> forall i :: 0 <= i < index ==> Takes(devs[i], res)
      invariant forall i :: 0 <= i < index ==> devs[i].mode == Brought(devs[i], res, old(devs[i].mode))
      invariant forall i :: index <= i < |devs| ==> devs[i].mode == old(devs[i].mode)
    {
      var d := devs[index];
      var numberIndex := Search(d.modes, res);
      var one := d.SetMode(numberIndex);
      if one != Success {
        status := one;
      }
      index := index + 1;
    }
  }
}
