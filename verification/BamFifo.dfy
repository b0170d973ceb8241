/** The DMA engine's descriptor ring: a buffer is cut into descriptors that are written to consecutive
    slots of a power-of-two ring, and the hardware is told the byte offset where they end. */
module BamFifo {
  import opened Helpers

  const BAM_DESC_SIZE := 8
  const BAM_MAX_DESC_DATA_LEN := 0xFFFF

  datatype Result = Success | Failure

  datatype Desc = Desc(addr: nat, size: nat, reserved: nat, flags: nat)

  /** Lock and unlock exclude each other, and so do end of transfer and command. */
  predicate FlagsOk(flags: nat) {
    !(Bit(flags, 0x04) && Bit(flags, 0x02)) && !(Bit(flags, 0x40) && Bit(flags, 0x08))
  }

  lemma FlagsZero()
    ensures FlagsOk(0)
  {
  }

  // ----- powers of two and bitwise and -----

  function Pow2(k: nat): (p: nat)
    ensures p > 0
  {
    if k == 0 then 1 else 2 * Pow2(k - 1)
  }

  function And(a: nat, b: nat): nat {
    if a == 0 || b == 0 then 0 else 2 * And(a / 2, b / 2) + (a % 2) * (b % 2)
  }

  /** Masking with one less than a power of two is the remainder by it. */
  lemma {:induction false} AndMask(a: nat, k: nat)
    ensures And(a, Pow2(k) - 1) == a % Pow2(k)
  {
    if k == 0 {
    } else {
      var p := Pow2(k - 1);
      AndMask(a / 2, k - 1);
      assert (2 * p - 1) / 2 == p - 1 && (2 * p - 1) % 2 == 1;
      DoubleMod(a, p);
      if a != 0 {
        if p == 1 {
          assert And(a, 1) == 2 * And(a / 2, 0) + a % 2;
        } else {
          assert And(a, 2 * p - 1) == 2 * And(a / 2, p - 1) + (a % 2) * 1;
        }
      }
    }
  }

  lemma DoubleMod(a: nat, p: nat)
    requires p > 0
    ensures a % (2 * p) == 2 * (a / 2 % p) + a % 2
  {
    var q, r := a / 2 / p, a / 2 % p;
    assert a / 2 == q * p + r;
    assert a == 2 * (q * p + r) + a % 2 == q * (2 * p) + (2 * r + a % 2);
    ModUnique(a, 2 * p, q, 2 * r + a % 2);
  }

  lemma ModUnique(a: int, m: int, q: int, r: int)
    requires m > 0 && 0 <= r < m && a == q * m + r
    ensures a % m == r
  {
    var d := a / m - q;
    assert a == a / m * m + a % m;
    assert r - a % m == d * m;
    assert (d > 0 ==> d * m >= m) && (d < 0 ==> d * m <= -m);
  }

  // ----- cutting a buffer -----

  /** The descriptors of a buffer: full ones, and a last one that carries the flags. */
  function Chunks(ptr: nat, len: nat, flags: nat): (c: seq<Desc>)
    requires len > 0
    ensures |c| > 0
    decreases len
  {
    if len > BAM_MAX_DESC_DATA_LEN then
      [Desc(ptr, BAM_MAX_DESC_DATA_LEN, 0, 0)] + Chunks(ptr + BAM_MAX_DESC_DATA_LEN, len - BAM_MAX_DESC_DATA_LEN, flags)
    else [Desc(ptr, len, 0, flags)]
  }

  /** They partition [ptr, ptr + len) in order, none empty or too long, with flags on the last only. */
  lemma {:induction false} ChunksPartition(ptr: nat, len: nat, flags: nat)
    requires len > 0
    ensures var c := Chunks(ptr, len, flags); var last := |c| - 1;
      && c[0].addr == ptr && c[last].addr + c[last].size == ptr + len
      && (forall k :: 0 <= k < last ==> c[k].addr + c[k].size == c[k + 1].addr && c[k].flags == 0)
      && (forall k :: 0 <= k <= last ==> 0 < c[k].size <= BAM_MAX_DESC_DATA_LEN)
      && c[last].flags == flags
      && |c| == (len + BAM_MAX_DESC_DATA_LEN - 1) / BAM_MAX_DESC_DATA_LEN
    decreases len
  {
    if len > BAM_MAX_DESC_DATA_LEN {
      ChunksPartition(ptr + BAM_MAX_DESC_DATA_LEN, len - BAM_MAX_DESC_DATA_LEN, flags);
    }
  }

  // ----- the ring -----

  function Next(cur: nat, size: nat): nat
    requires cur < size
  {
    if cur == size - 1 then 0 else cur + 1
  }

  /** Write descriptors to consecutive slots from cur on. */
  function Fill(ring: seq<Desc>, cur: nat, c: seq<Desc>): (r: seq<Desc>)
    requires cur < |ring|
    ensures |r| == |ring|
    decreases |c|
  {
    if c == [] then ring else Fill(ring[cur := c[0]], Next(cur, |ring|), c[1..])
  }

  lemma NextMod(cur: nat, size: nat, k: nat)
    requires cur < size
    ensures (cur + k + 1) % size == (Next(cur, size) + k) % size
  {
    if cur == size - 1 {
      assert cur + k + 1 == size + k;
      ModShift(k, size);
    }
  }

  lemma ModShift(k: nat, size: nat)
    requires size > 0
    ensures (size + k) % size == k % size
  {
    ModUnique(size + k, size, k / size + 1, k % size);
  }

  /** At most a ring's worth of descriptors: descriptor k lands k slots on, and no other slot is written. */
  lemma {:induction false} FillPlaces(ring: seq<Desc>, cur: nat, c: seq<Desc>)
    requires cur < |ring| && |c| <= |ring|
    ensures forall k :: 0 <= k < |c| ==> Fill(ring, cur, c)[Slot(cur, k, |ring|)] == c[k]
    ensures forall j :: 0 <= j < |ring| && Distance(cur, j, |ring|) >= |c| ==> Fill(ring, cur, c)[j] == ring[j]
    decreases |c|
  {
    if c != [] {
      var size := |ring|;
      var next := Next(cur, size);
      FillPlaces(ring[cur := c[0]], next, c[1..]);
      forall k | 0 <= k < |c|
        ensures Fill(ring, cur, c)[Slot(cur, k, size)] == c[k]
      {
        if k == 0 {
          assert Distance(next, cur, size) == size - 1;
        } else {
          assert Slot(cur, k, size) == Slot(next, k - 1, size);
          assert c[1..][k - 1] == c[k];
        }
      }
      forall j | 0 <= j < size && Distance(cur, j, size) >= |c|
        ensures Fill(ring, cur, c)[j] == ring[j]
      {
        assert Distance(next, j, size) == Distance(cur, j, size) - 1;
      }
    }
  }

  // The slot k places after cur, and how many places slot j is after cur.
  function Slot(cur: nat, k: nat, size: nat): (s: nat)
    requires cur < size && k < size
    ensures s < size
  {
    if cur + k < size then cur + k else cur + k - size
  }

  function Distance(cur: nat, j: nat, size: nat): (d: nat)
    requires cur < size && j < size
    ensures d < size
  {
    if j >= cur then j - cur else j + size - cur
  }

  // ----- the pipe -----

  /** What is written to the event register for n descriptors; a 16-bit offset is added. */
  function EventValue(n: nat, offset: nat, size: nat): nat
    requires n > 0 && size > 0
  {
    And((n - 1) * BAM_DESC_SIZE + offset, size * BAM_DESC_SIZE - 1)
  }

  class Pipe {
    var fifo: array<Desc>
    var current: nat  // the slot the next descriptor goes to
    var offset: nat  // 16 bits
    var initialized: bool
    var events: seq<nat>  // the writes to the event register

    constructor (size: nat)
      ensures fifo.Length == size && !initialized && events == [] && fresh(fifo)
    {
      fifo := new Desc[size](_ => Desc(0, 0, 0, 0));
      current, offset, initialized, events := 0, 0, false, [];
    }

    ghost predicate Valid()
      reads this
    {
      && current < fifo.Length <= 0x4000 && offset < 0x1_0000
      && exists k: nat :: fifo.Length == Pow2(k)
    }

    /** The offset is that of the slot after the current one, as far as 16 bits go. */
    ghost predicate Fresh()
      reads this
    {
      offset == (current + 1) * BAM_DESC_SIZE % 0x1_0000
    }

    method FifoInit() returns (r: Result)
      requires exists k: nat :: fifo.Length == Pow2(k)
      modifies this`current, this`offset, this`initialized
      ensures r == Success <==> fifo.Length <= 0x7FFF
      ensures r == Success ==> Valid() && Fresh() && initialized && current == 0
      ensures r == Failure ==> current == old(current) && offset == old(offset) && initialized == old(initialized)
    {
      if fifo.Length > 0x7FFF {
        return Failure;
      }
      ghost var k: nat :| fifo.Length == Pow2(k);
      PowersBelow(k);
      current := 0;
      offset := BAM_DESC_SIZE;
      initialized := true;
      r := Success;
    }

    /** Take over the offset the hardware reports: 16 bits, at a descriptor of the ring. */
    method ReadOffsetUpdate(reported: nat)
      requires Valid() && reported % 0x1_0000 % BAM_DESC_SIZE == 0
      requires reported % 0x1_0000 / BAM_DESC_SIZE < fifo.Length
      modifies this`current, this`offset
      ensures Valid() && Fresh() && current == reported % 0x1_0000 / BAM_DESC_SIZE
    {
      var o := reported % 0x1_0000;
      current := o / BAM_DESC_SIZE;
      offset := (o + BAM_DESC_SIZE) % 0x1_0000;
    }

    method SysGenEvent(n: nat)
      requires n > 0 && fifo.Length > 0
      modifies this`events
      ensures events == if n < fifo.Length then old(events) + [EventValue(n, offset, fifo.Length)] else old(events)
    {
      if n >= fifo.Length {
        return;
      }
      events := events + [And((n - 1) * BAM_DESC_SIZE + offset, fifo.Length * BAM_DESC_SIZE - 1)];
    }

    /** Write one descriptor; only the low 8 bits of the flags reach it. */
    method AddOneDesc(dataPtr: nat, len: nat, flags: nat) returns (r: Result)
      requires Valid()
      modifies this`current, fifo
      ensures Valid() && fifo == old(fifo)
      ensures r == Success <==>
        dataPtr != 0 && 0 < len <= BAM_MAX_DESC_DATA_LEN && initialized && FlagsOk(flags % 0x100)
      ensures r == Success ==> current == Next(old(current), fifo.Length)
      ensures r == Success ==>
        fifo[..] == old(fifo[..])[old(current) := Desc(dataPtr % 0x1_0000_0000, len, 0, flags % 0x100)]
      ensures r == Failure ==> current == old(current) && fifo[..] == old(fifo[..])
    {
      var f := flags % 0x100;
      if dataPtr == 0 || len == 0 {
        return Failure;
      }
      if !initialized {
        return Failure;
      }
      if Bit(f, 0x04) && Bit(f, 0x02) {
        return Failure;
      }
      if Bit(f, 0x40) && Bit(f, 0x08) {
        return Failure;
      }
      if len > BAM_MAX_DESC_DATA_LEN {
        return Failure;
      }
      fifo[current] := Desc(dataPtr % 0x1_0000_0000, len, 0, f);
      current := if current == fifo.Length - 1 then 0 else current + 1;
      r := Success;
    }

    // The loop of AddDesc.
    method WriteDescs(dataPtr: nat, dataLen: nat, flags: nat) returns (n: nat)
      requires Valid() && 0 < dataPtr < dataPtr + dataLen <= 0x1_0000_0000
      modifies this`current, fifo
      ensures Valid() && n == |Chunks(dataPtr, dataLen, flags % 0x100)|
      ensures var w := Written(Chunks(dataPtr, dataLen, flags % 0x100), initialized, flags);
        fifo[..] == Fill(old(fifo[..]), old(current), w) && current == After(old(current), |w|, fifo.Length)
    {
      hide Fill, After, Written, Progress, FlagsOk;
      FlagsZero();
      var ptr, len := dataPtr, dataLen;
      n := 0;
      ghost var c := Chunks(dataPtr, dataLen, flags % 0x100);
      ghost var w := Written(c, initialized, flags);
      WrittenFacts(c, initialized, flags);
      ProgressStart(fifo[..], current, w);
      while len > 0
        invariant ptr != 0 && (len > 0 ==> ptr + len == dataPtr + dataLen) && 0 <= n <= |c|
        invariant if len > 0 then n < |c| && c[n..] == Chunks(ptr, len, flags % 0x100) else n == |c|
        invariant Valid()
        invariant Progress(fifo[..], current, n, old(fifo[..]), old(current), w)
      {
        var descLen, descFlags;
        if len > BAM_MAX_DESC_DATA_LEN {
          descLen := BAM_MAX_DESC_DATA_LEN;
          len := len - BAM_MAX_DESC_DATA_LEN;
          descFlags := 0;
        } else {
          descLen := len;
          len := 0;
          descFlags := flags;
        }
        assert c[n] == c[n..][0] == Desc(ptr, descLen, 0, descFlags % 0x100);
        assert c[n + 1..] == c[n..][1..];
        ProgressStep(fifo[..], current, n, old(fifo[..]), old(current), w);
        var _ := AddOneDesc(ptr, descLen, descFlags);
        ptr := ptr + BAM_MAX_DESC_DATA_LEN;
        n := n + 1;
      }
      ProgressEnd(fifo[..], current, n, old(fifo[..]), old(current), w);
    }

    /** Cut a buffer into descriptors, write them, and announce them. What fails on the way is not
        reported: an uninitialised pipe takes no descriptor, flags that clash lose the last one. */
    method AddDesc(dataPtr: nat, dataLen: nat, flags: nat) returns (r: Result)
      requires Valid() && dataPtr + dataLen <= 0x1_0000_0000
      modifies this`current, this`events, fifo
      ensures Valid() && fifo == old(fifo)
      ensures r == Success <==> dataPtr != 0 && 0 < dataLen <= fifo.Length * BAM_MAX_DESC_DATA_LEN
      ensures r == Failure ==> current == old(current) && fifo[..] == old(fifo[..]) && events == old(events)
      ensures r == Success ==>
        var c := Chunks(dataPtr, dataLen, flags % 0x100); var w := Written(c, initialized, flags);
        && fifo[..] == Fill(old(fifo[..]), old(current), w) && current == After(old(current), |w|, fifo.Length)
        && events == (if |c| < fifo.Length then old(events) + [EventValue(|c|, offset, fifo.Length)] else old(events))
      ensures r == Success && old(Fresh()) && initialized && FlagsOk(flags % 0x100) ==>
        var size := fifo.Length;
        |Chunks(dataPtr, dataLen, flags % 0x100)| < size ==>
        && |events| == |old(events)| + 1
        && (events[|events| - 1] == current * BAM_DESC_SIZE
            <==> size <= 0x2000 || old(current) < 0x1FFF || old(current) == size - 1)
    {
      if dataPtr == 0 || dataLen == 0 {
        return Failure;
      }
      if dataLen > fifo.Length * BAM_MAX_DESC_DATA_LEN {
        return Failure;
      }
      ghost var k: nat :| fifo.Length == Pow2(k);
      WrittenFacts(Chunks(dataPtr, dataLen, flags % 0x100), initialized, flags);
      var n := WriteDescs(dataPtr, dataLen, flags);
      FreshEventRight(old(current), n, k);
      SysGenEvent(n);
      r := Success;
    }
  }

  /** n descriptors of c have been offered, of which those in w count. */
  ghost predicate Progress(ring: seq<Desc>, cur: nat, n: nat, ring0: seq<Desc>, cur0: nat, w: seq<Desc>) {
    && cur < |ring| == |ring0| && cur0 < |ring0|
    && if n <= |w| then
         && Fill(ring, cur, w[n..]) == Fill(ring0, cur0, w)
         && After(cur, |w| - n, |ring|) == After(cur0, |w|, |ring|)
       else ring == Fill(ring0, cur0, w) && cur == After(cur0, |w|, |ring|)
  }

  lemma ProgressStart(ring: seq<Desc>, cur: nat, w: seq<Desc>)
    requires cur < |ring|
    ensures Progress(ring, cur, 0, ring, cur, w)
  {
    assert w[0..] == w;
  }

  lemma ProgressStep(ring: seq<Desc>, cur: nat, n: nat, ring0: seq<Desc>, cur0: nat, w: seq<Desc>)
    requires Progress(ring, cur, n, ring0, cur0, w)
    ensures n < |w| ==> Progress(ring[cur := w[n]], Next(cur, |ring|), n + 1, ring0, cur0, w)
    ensures n >= |w| ==> Progress(ring, cur, n + 1, ring0, cur0, w)
  {
    if n < |w| {
      assert w[n..][0] == w[n] && w[n..][1..] == w[n + 1..];
    }
  }

  lemma ProgressEnd(ring: seq<Desc>, cur: nat, n: nat, ring0: seq<Desc>, cur0: nat, w: seq<Desc>)
    requires Progress(ring, cur, n, ring0, cur0, w) && n >= |w|
    ensures ring == Fill(ring0, cur0, w) && cur == After(cur0, |w|, |ring|)
  {
  }

  lemma WrittenFacts(c: seq<Desc>, initialized: bool, flags: nat)
    requires c != []
    ensures var w := Written(c, initialized, flags);
      && |w| <= |c| && w == c[..|w|] && (!initialized ==> w == [])
      && (initialized && FlagsOk(flags % 0x100) ==> |w| == |c|)
      && (initialized && !FlagsOk(flags % 0x100) ==> |w| == |c| - 1)
  {
  }

  /** The descriptors that make it into the ring. */
  function Written(c: seq<Desc>, initialized: bool, flags: nat): (w: seq<Desc>)
    requires c != []
    ensures w <= c
  {
    if !initialized then [] else if FlagsOk(flags % 0x100) then c else c[..|c| - 1]
  }

  function After(cur: nat, n: nat, size: nat): (r: nat)
    requires cur < size
    ensures r < size
    decreases n
  {
    if n == 0 then cur else After(Next(cur, size), n - 1, size)
  }

  lemma {:induction false} PowersBelow(k: nat)
    requires Pow2(k) <= 0x7FFF
    ensures Pow2(k) <= 0x4000
  {
    assert Pow2(14) == 0x4000 && Pow2(15) == 0x8000;
    if k >= 15 {
      PowersGrow(15, k);
    } else {
      PowersGrow(k, 14);
    }
  }

  lemma {:induction false} PowersGrow(j: nat, k: nat)
    requires j <= k
    ensures Pow2(j) <= Pow2(k)
    decreases k
  {
    if j < k {
      PowersGrow(j, k - 1);
    }
  }

  // ----- the announced offset -----

  lemma Congruent(x: int, y: int, m: int)
    requires m > 0
    ensures x % m == y % m <==> (x - y) % m == 0
  {
    if x % m == y % m {
      assert x - y == (x / m - y / m) * m;
      ModUnique(x - y, m, x / m - y / m, 0);
    } else if (x - y) % m == 0 {
      var d := (x - y) / m;
      assert x == (d + y / m) * m + y % m;
      ModUnique(x, m, d + y / m, y % m);
    }
  }

  lemma ModCancel(a: int, x: int, y: int, m: int)
    requires m > 0
    ensures (a + x) % m == (a + y) % m <==> x % m == y % m
  {
    Congruent(a + x, a + y, m);
    Congruent(x, y, m);
    assert (a + x) - (a + y) == x - y;
  }

  lemma {:induction false} AfterMod(cur: nat, n: nat, size: nat)
    requires cur < size
    ensures After(cur, n, size) == (cur + n) % size
    decreases n
  {
    if n > 0 {
      AfterMod(Next(cur, size), n - 1, size);
      NextMod(cur, size, n - 1);
    }
  }

  lemma EventIs(n: nat, offset: nat, k: nat)
    requires n > 0
    ensures EventValue(n, offset, Pow2(k)) == ((n - 1) * BAM_DESC_SIZE + offset) % (Pow2(k) * BAM_DESC_SIZE)
  {
    PowersMultiply(3, k);
    assert Pow2(3) == 8;
    AndMask((n - 1) * BAM_DESC_SIZE + offset, 3 + k);
  }

  lemma ScaledMod(x: nat, size: nat)
    requires size > 0
    ensures x % size * BAM_DESC_SIZE == x * BAM_DESC_SIZE % (size * BAM_DESC_SIZE)
  {
    assert x * 8 == x / size * (size * 8) + x % size * 8;
    ModUnique(x * 8, size * 8, x / size, x % size * 8);
  }

  /** The announced offset is that of the new current slot exactly when the pipe's offset was, around the
      ring, that of the slot after the current one. */
  lemma EventRight(cur: nat, n: nat, offset: nat, k: nat)
    requires cur < Pow2(k) && n > 0
    ensures var size := Pow2(k); var ring := size * BAM_DESC_SIZE;
      EventValue(n, offset, size) == After(cur, n, size) * BAM_DESC_SIZE
      <==> offset % ring == (cur + 1) * BAM_DESC_SIZE % ring
  {
    var size := Pow2(k);
    EventIs(n, offset, k);
    AfterMod(cur, n, size);
    ScaledMod(cur + n, size);
    assert (cur + n) * BAM_DESC_SIZE == (n - 1) * BAM_DESC_SIZE + (cur + 1) * BAM_DESC_SIZE;
    ModCancel((n - 1) * BAM_DESC_SIZE, offset, (cur + 1) * BAM_DESC_SIZE, size * BAM_DESC_SIZE);
  }

  lemma SmallRing(x: nat, k: nat)
    requires k <= 13
    ensures x % 0x1_0000 % (Pow2(k) * BAM_DESC_SIZE) == x % (Pow2(k) * BAM_DESC_SIZE)
  {
    var p, j := Pow2(k), Pow2(13 - k);
    PowersMultiply(13 - k, k);
    assert j * p == 0x2000 by { assert Pow2(13) == 0x2000; }
    MulAssoc(j, p, BAM_DESC_SIZE);
    ModDivides(x, p * BAM_DESC_SIZE, j, 0x1_0000);
  }

  lemma ModDivides(x: nat, m: nat, j: nat, n: nat)
    requires m > 0 && n > 0 && n == j * m
    ensures x % n % m == x % m
  {
    var q := x / n;
    assert x - x % n == q * n == q * (j * m);
    MulAssoc(q, j, m);
    ModUnique(x - x % n, m, q * j, 0);
    Congruent(x, x % n, m);
  }

  lemma MulAssoc(a: int, b: int, c: int)
    ensures a * b * c == a * (b * c)
  {
  }

  lemma {:induction false} PowersMultiply(a: nat, b: nat)
    ensures Pow2(a) * Pow2(b) == Pow2(a + b)
  {
    if a > 0 {
      PowersMultiply(a - 1, b);
      assert Pow2(a) * Pow2(b) == 2 * (Pow2(a - 1) * Pow2(b));
    }
  }

  /** Right after the pipe is set up, or after the hardware offset is read, the announced offset is that of the
      new current slot for every ring of up to 8192 descriptors. A ring of 16384 does not fit the 16-bit
      offset: there it fails in the upper half, from slot 8191 to the last but one. */
  lemma FreshEventRight(cur: nat, n: nat, k: nat)
    requires cur < Pow2(k) <= 0x4000 && n > 0
    ensures var size := Pow2(k);
      EventValue(n, (cur + 1) * BAM_DESC_SIZE % 0x1_0000, size) == After(cur, n, size) * BAM_DESC_SIZE
      <==> size <= 0x2000 || cur < 0x1FFF || cur == size - 1
  {
    var x := (cur + 1) * BAM_DESC_SIZE;
    EventRight(cur, n, x % 0x1_0000, k);
    assert Pow2(13) == 0x2000 && Pow2(14) == 0x4000 && Pow2(15) == 0x8000;
    if k <= 13 {
      PowersGrow(k, 13);
      SmallRing(x, k);
    } else if k > 14 {
      PowersGrow(15, k);
    }
  }

  /** Where the announced offset of a transfer is right, that of the next one, without reading the hardware offset in
      between, is right exactly when the first went once around the ring. Where it is wrong, the next one is right
      exactly when the first took half of the ring. */
  lemma StaleEvent(cur: nat, first: nat, second: nat, k: nat)
    requires cur < Pow2(k) <= 0x4000 && second > 0
    ensures var size, offset := Pow2(k), (cur + 1) * BAM_DESC_SIZE % 0x1_0000; var moved := After(cur, first, size);
      EventValue(second, offset, size) == After(moved, second, size) * BAM_DESC_SIZE
      <==> first % size == if size <= 0x2000 || cur < 0x1FFF || cur == size - 1 then 0 else 0x2000
  {
    var size, offset := Pow2(k), (cur + 1) * BAM_DESC_SIZE % 0x1_0000;
    var ring, moved := size * BAM_DESC_SIZE, After(cur, first, size);
    EventRight(moved, second, offset, k);
    ScaledMod(moved + 1, size);
    AfterMod(cur, first, size);
    ModCancel(1, moved, cur + first, size);
    Congruent(moved, cur + first, size);
    ModTwice(cur + first, size);
    if size <= 0x2000 || cur < 0x1FFF || cur == size - 1 {
      EventRight(cur, 1, offset, k);
      FreshEventRight(cur, 1, k);
      ScaledMod(cur + 1, size);
      ModCancel(cur + 1, 0, first, size);
      ModUnique(0, size, 0, 0);
    } else {
      SizeLargest(k);
      var x := cur + 1 - 0x2000;
      assert offset == x * BAM_DESC_SIZE;
      ScaledMod(x, size);
      ModCancel(cur + 1, -0x2000, first, size);
      assert -0x2000 % 0x4000 == 0x2000;
    }
  }

  lemma ModTwice(x: nat, m: nat)
    requires m > 0
    ensures x % m % m == x % m
  {
  }

  lemma SizeLargest(k: nat)
    requires 0x2000 < Pow2(k) <= 0x4000
    ensures Pow2(k) == 0x4000
  {
    assert Pow2(13) == 0x2000 && Pow2(14) == 0x4000 && Pow2(15) == 0x8000;
    if k <= 13 {
      PowersGrow(k, 13);
    } else if k > 14 {
      PowersGrow(15, k);
    }
  }
}
