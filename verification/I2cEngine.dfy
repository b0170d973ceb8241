/** The polled I2C transfer engine: it drives the controller's registers, gives every wait a bound, and clears
    the transfer flag however the transfer ends. What the hardware answers is arbitrary. */
module I2cEngine {
  import opened Helpers
  import opened I2cTags

  const EIO: int := 5
  const ETIMEDOUT: int := 110

  // Register offsets.
  const QUP_CONFIG: nat := 0x000
  const QUP_STATE: nat := 0x004
  const QUP_IO_MODE: nat := 0x008
  const QUP_SW_RESET: nat := 0x00c
  const QUP_OPERATIONAL: nat := 0x018
  const QUP_ERROR_FLAGS_EN: nat := 0x020
  const QUP_OPERATIONAL_MASK: nat := 0x028
  const QUP_MX_OUTPUT_CNT: nat := 0x100
  const QUP_OUT_FIFO_BASE: nat := 0x110
  const QUP_MX_WRITE_CNT: nat := 0x150
  const QUP_MX_INPUT_CNT: nat := 0x200
  const QUP_MX_READ_CNT: nat := 0x208
  const QUP_IN_FIFO_BASE: nat := 0x218
  const QUP_I2C_CLK_CTL: nat := 0x400
  const QUP_I2C_STATUS: nat := 0x404
  const QUP_I2C_MASTER_GEN: nat := 0x408

  // States, and bits of the status registers.
  const QUP_RESET_STATE: nat := 0
  const QUP_RUN_STATE: nat := 1
  const QUP_PAUSE_STATE: nat := 3
  const QUP_STATE_VALID: nat := 0x4
  const QUP_I2C_MAST_GEN: nat := 0x10
  const QUP_I2C_NACK_FLAG: nat := 0x8
  const QUP_OUT_SVC_FLAG: nat := 0x100
  const MX_OUTPUT_DONE: nat := 0x400
  const QUP_MX_INPUT_DONE: nat := 0x800

  // Any bit of 0x38000FC: bits 2 to 7 and 23 to 25.
  predicate BusError(v: nat) { v / 4 % 64 != 0 || v / 0x80_0000 % 8 != 0 }

  predicate InState(v: nat, state: nat) { Bit(v, QUP_STATE_VALID) && v % 4 == state }

  /** A valid state that is the one asked for. */
  predicate Reached(v: nat, state: nat) {
    && Bit(v, QUP_STATE_VALID)
    && (v % 4 == state || (Bit(state, QUP_I2C_MAST_GEN) && Bit(v, QUP_I2C_MAST_GEN)))
  }

  /** The controller has finished: its output, and its input too when there is a reply. */
  predicate Done(op: nat, rdlen: nat) {
    !Bit(op, QUP_I2C_NACK_FLAG) && Bit(op, MX_OUTPUT_DONE) && (rdlen > 0 ==> Bit(op, QUP_MX_INPUT_DONE))
  }

  datatype Write = Write(offset: nat, value: nat)

  function Pushes(words: seq<nat>): (ws: seq<Write>)
    ensures |ws| == |words|
  {
    seq(|words|, j requires 0 <= j < |words| => Write(QUP_OUT_FIFO_BASE, words[j]))
  }

  const DEFAULT_CLK_CTL: nat := 0x035D

  // The counts: tags out, and for a reply its header and bytes in.
  function Counts(nt: nat, rdlen: nat): seq<Write> {
    [Write(QUP_MX_OUTPUT_CNT, 0), Write(QUP_IO_MODE, 0xC000), Write(QUP_MX_WRITE_CNT, nt)]
    + (if rdlen > 0 then [Write(QUP_MX_READ_CNT, rdlen + 2), Write(QUP_MX_INPUT_CNT, rdlen + 2)] else [])
    + [Write(QUP_ERROR_FLAGS_EN, 0x7C), Write(QUP_OPERATIONAL_MASK, 0xFFFF)]
  }

  function Reset(): seq<Write> { [Write(QUP_SW_RESET, 1), Write(QUP_CONFIG, 0x207), Write(QUP_I2C_MASTER_GEN, 1)] }

  function Clock(clkCtl: nat): seq<Write> {
    [Write(QUP_STATE, QUP_RUN_STATE), Write(QUP_I2C_CLK_CTL, if clkCtl != 0 then clkCtl else DEFAULT_CLK_CTL),
     Write(QUP_STATE, QUP_PAUSE_STATE)]
  }

  /** The register writes of a transfer up to its start: set up, push the tags, run. */
  function Setup(nt: nat, rdlen: nat, clkCtl: nat): seq<Write> { Reset() + Counts(nt, rdlen) + Clock(clkCtl) }

  function Script(msgs: seq<Msg>, clkCtl: nat): seq<Write>
    requires Supported(msgs)
  {
    Setup(|Encode(msgs)|, ReadLen(msgs), clkCtl) + Pushes(Pack(Encode(msgs))) + [Write(QUP_STATE, QUP_RUN_STATE)]
  }

  /** Once the transfer runs, only service flags are acknowledged, and at the end the controller is reset. */
  predicate Closing(ws: seq<Write>) {
    forall k :: 0 <= k < |ws| ==>
      ws[k] == Write(QUP_OPERATIONAL, QUP_OUT_SVC_FLAG) || ws[k] == Write(QUP_STATE, QUP_RESET_STATE)
  }

  // The words pushed to the output FIFO by a run of writes.
  function Fifo(ws: seq<Write>): seq<nat> {
    if ws == [] then [] else (if ws[0].offset == QUP_OUT_FIFO_BASE then [ws[0].value] else []) + Fifo(ws[1..])
  }

  const POLL_LIMIT: nat := 2000
  const RESET_LIMIT: nat := 100000
  const DONE_LIMIT: nat := 300000

  /** No transfer reads more registers than this. */
  const READS_BOUND: nat := 2 * RESET_LIMIT + 2 * DONE_LIMIT + 8 * POLL_LIMIT * 2 + 16

  class QupDev {
    const bus: (nat, nat) -> nat  // what the n-th read gives, if it is of a certain register
    var ticks: nat  // the reads so far
    var log: seq<Write>
    var xferProgress: nat
    var suspended: bool
    var clkCtl: nat

    constructor (bus: (nat, nat) -> nat, clkCtl: nat)
    {
      this.bus := bus;
      this.clkCtl := clkCtl;
      ticks, log, xferProgress, suspended := 0, [], 0, false;
    }

    method Readl(offset: nat) returns (v: nat)
      modifies this`ticks
      ensures v == bus(old(ticks), offset) && ticks == old(ticks) + 1
    {
      v := bus(ticks, offset);
      ticks := ticks + 1;
    }

    method Writel(value: nat, offset: nat)
      modifies this`log
      ensures log == old(log) + [Write(offset, value)]
    {
      log := log + [Write(offset, value)];
    }

    /** Some read from one tick on to another saw a state reached. */
    ghost predicate SawState(from: nat, till: nat, state: nat) {
      exists n :: from <= n < till && Reached(bus(n, QUP_STATE), state)
    }

    /** Some read from one tick on to another saw the transfer done. */
    ghost predicate SawDone(from: nat, till: nat, rdlen: nat) {
      exists n :: from <= n < till && Done(bus(n, QUP_OPERATIONAL), rdlen)
    }

    method PollState(reqState: nat, onlyValid: bool) returns (rc: int)
      modifies this`ticks
      ensures old(ticks) <= ticks <= old(ticks) + POLL_LIMIT
      ensures rc == 0 || rc == -ETIMEDOUT
      ensures rc == 0 && !onlyValid ==> SawState(old(ticks), ticks, reqState)
    {
      var retries := 0;
      while retries != POLL_LIMIT
        invariant retries <= POLL_LIMIT && ticks == old(ticks) + retries
      {
        var status := Readl(QUP_STATE);
        if Bit(status, QUP_STATE_VALID) {
          if onlyValid {
            return 0;
          } else if Bit(reqState, QUP_I2C_MAST_GEN) && Bit(status, QUP_I2C_MAST_GEN) {
            return 0;
          } else if status % 4 == reqState {
            return 0;
          }
        }
        retries := retries + 1;
      }
      rc := -ETIMEDOUT;
    }

    /** Ask for a state and see it taken. */
    method UpdateState(state: nat) returns (rc: int)
      modifies this`ticks, this`log
      ensures old(ticks) <= ticks <= old(ticks) + 2 * POLL_LIMIT
      ensures rc == 0 || rc == -EIO
      ensures log == old(log) || log == old(log) + [Write(QUP_STATE, state)]
      ensures rc == 0 ==> log == old(log) + [Write(QUP_STATE, state)]
      ensures rc == 0 ==> SawState(old(ticks), ticks, state)
    {
      rc := PollState(0, true);
      if rc != 0 {
        return -EIO;
      }
      Writel(state, QUP_STATE);
      rc := PollState(state, false);
      if rc != 0 {
        return -EIO;
      }
    }

    method WaitReset() returns (rc: int)
      modifies this`ticks
      ensures old(ticks) <= ticks <= old(ticks) + RESET_LIMIT
      ensures rc == 0 || rc == -EIO
    {
      var left := RESET_LIMIT;
      var st := Readl(QUP_STATE);
      while !InState(st, QUP_RESET_STATE)
        invariant 0 < left <= RESET_LIMIT && ticks == old(ticks) + RESET_LIMIT - left + 1
        decreases left
      {
        left := left - 1;
        if left == 0 {
          return -EIO;
        }
        st := Readl(QUP_STATE);
      }
      rc := 0;
    }

    method WaitMastGen() returns (rc: int)
      modifies this`ticks
      ensures old(ticks) <= ticks <= old(ticks) + RESET_LIMIT
      ensures rc == 0 || rc == -EIO
    {
      var left := RESET_LIMIT;
      var st := Readl(QUP_STATE);
      while !Bit(st, QUP_I2C_MAST_GEN)
        invariant 0 < left <= RESET_LIMIT && ticks == old(ticks) + RESET_LIMIT - left + 1
        decreases left
      {
        left := left - 1;
        if left == 0 {
          return -EIO;
        }
        st := Readl(QUP_STATE);
      }
      rc := 0;
    }

    method SetReset() returns (rc: int)
      modifies this`ticks, this`log
      ensures old(ticks) <= ticks <= old(ticks) + 2 * RESET_LIMIT
      ensures rc == 0 || rc == -EIO
      ensures rc == 0 ==> log == old(log) + Reset()
    {
      Writel(1, QUP_SW_RESET);
      rc := WaitReset();
      if rc != 0 {
        return;
      }
      Writel(0x207, QUP_CONFIG);
      Writel(1, QUP_I2C_MASTER_GEN);
      rc := WaitMastGen();
    }

    method SetCounts(nt: nat, rdlen: nat)
      modifies this`log
      ensures log == old(log) + Counts(nt, rdlen)
    {
      Writel(0, QUP_MX_OUTPUT_CNT);
      Writel(0xC000, QUP_IO_MODE);
      Writel(nt, QUP_MX_WRITE_CNT);
      if rdlen != 0 {
        Writel(rdlen + 2, QUP_MX_READ_CNT);
        Writel(rdlen + 2, QUP_MX_INPUT_CNT);
      }
      Writel(0x7C, QUP_ERROR_FLAGS_EN);
      Writel(0xFFFF, QUP_OPERATIONAL_MASK);
    }

    method SetClock() returns (rc: int)
      modifies this`ticks, this`log
      ensures old(ticks) <= ticks <= old(ticks) + 4 * POLL_LIMIT
      ensures rc == 0 || rc == -EIO
      ensures rc == 0 ==> log == old(log) + Clock(clkCtl)
    {
      rc := UpdateState(QUP_RUN_STATE);
      if rc < 0 {
        return;
      }
      Writel(if clkCtl != 0 then clkCtl else DEFAULT_CLK_CTL, QUP_I2C_CLK_CTL);
      rc := UpdateState(QUP_PAUSE_STATE);
    }

    // From the reset to the paused state.
    method Prepare(nt: nat, rdlen: nat) returns (rc: int)
      modifies this`ticks, this`log
      ensures old(ticks) <= ticks <= old(ticks) + 2 * RESET_LIMIT + 4 * POLL_LIMIT
      ensures rc == 0 || rc == -EIO
      ensures rc == 0 ==> log == old(log) + Setup(nt, rdlen, clkCtl)
    {
      hide Reset, Counts, Clock;
      rc := SetReset();
      if rc != 0 {
        return;
      }
      SetCounts(nt, rdlen);
      rc := SetClock();
    }

    method PushTags(tags: array<Byte>, nt: nat)
      requires nt <= tags.Length
      modifies this`log
      ensures log == old(log) + Pushes(Pack(tags[..nt]))
    {
      var i := 0;
      var j := 0;
      while i < nt
        invariant i == 4 * j && j <= WordCount(nt)
        invariant log == old(log) + Pushes(Pack(tags[..nt])[..j])
      {
        var w := PackWord(tags, i, nt);
        assert tags[..nt][i..Least(i + 4, nt)] == tags[i..Least(i + 4, nt)];
        assert w == Pack(tags[..nt])[j];
        assert Pack(tags[..nt])[..j + 1] == Pack(tags[..nt])[..j] + [w];
        PushesSnoc(Pack(tags[..nt])[..j], w);
        Writel(w, QUP_OUT_FIFO_BASE);
        i := i + 4;
        j := j + 1;
      }
      assert Pack(tags[..nt])[..j] == Pack(tags[..nt]);
    }

    /** Wait for the transfer to finish; a missing acknowledge, a bus error and a timeout end it. */
    method WaitDone(rdlen: nat) returns (rc: int, ghost acks: seq<Write>)
      modifies this`ticks, this`log
      ensures old(ticks) <= ticks <= old(ticks) + 2 * DONE_LIMIT
      ensures rc == 0 || rc == -EIO
      ensures log == old(log) + acks && Closing(acks)
      ensures rc == 0 ==> SawDone(old(ticks), ticks, rdlen)
    {
      var left := DONE_LIMIT;
      acks := [];
      while true
        invariant 0 < left <= DONE_LIMIT && ticks == old(ticks) + 2 * (DONE_LIMIT - left)
        invariant log == old(log) + acks && Closing(acks)
        decreases left
      {
        var op := Readl(QUP_OPERATIONAL);
        if Bit(op, QUP_I2C_NACK_FLAG) {
          return -EIO, acks;
        }
        if Bit(op, QUP_OUT_SVC_FLAG) {
          Writel(QUP_OUT_SVC_FLAG, QUP_OPERATIONAL);
          acks := acks + [Write(QUP_OPERATIONAL, QUP_OUT_SVC_FLAG)];
        }
        if rdlen != 0 {
          if Bit(op, MX_OUTPUT_DONE) && Bit(op, QUP_MX_INPUT_DONE) {
            return 0, acks;
          }
        } else {
          if Bit(op, MX_OUTPUT_DONE) {
            return 0, acks;
          }
        }
        var status := Readl(QUP_I2C_STATUS);
        if BusError(status) {
          return -EIO, acks;
        }
        left := left - 1;
        if left == 0 {
          return -EIO, acks;
        }
      }
    }

    /** The words that consecutive reads of the input FIFO gave. */
    ghost function Received(from: nat, n: nat): seq<nat> {
      seq(n, j requires 0 <= j < n => bus(from + j, QUP_IN_FIFO_BASE))
    }

    /** What a reply read from one tick on is: the bytes behind the two byte header. */
    ghost function Reply(from: nat, rdlen: nat): seq<Byte> {
      Bytes(Received(from, WordCount(rdlen + 2)), rdlen + 2)[2..]
    }

    method ReadFifo(total: nat) returns (rbufLocal: array<Byte>)
      requires total <= 64
      modifies this`ticks
      ensures fresh(rbufLocal) && rbufLocal.Length == 64 && ticks == old(ticks) + WordCount(total)
      ensures rbufLocal[..total] == Bytes(Received(old(ticks), WordCount(total)), total)
    {
      rbufLocal := new Byte[64];
      var ri, i := 0, 0;
      ghost var words := Received(ticks, WordCount(total));
      while i < total
        invariant i <= total + 3 && i % 4 == 0 && ri == Least(i, total) && ticks == old(ticks) + i / 4
        invariant forall k :: 0 <= k < ri ==> rbufLocal[k] == ByteOf(words[k / 4], k % 4)
      {
        var w := Readl(QUP_IN_FIFO_BASE);
        assert w == words[i / 4];
        ri := UnpackWord(rbufLocal, w, i, total, words);
        i := i + 4;
      }
    }

    /** Empty the input FIFO; the bytes behind its two byte header go to the caller. */
    method Drain(rdlen: nat, rbuf: array<Byte>)
      requires rdlen <= MAX_READ && rdlen <= rbuf.Length
      modifies this`ticks, rbuf
      ensures ticks == old(ticks) + WordCount(rdlen + 2)
      ensures rbuf[..rdlen] == Reply(old(ticks), rdlen)
      ensures rbuf[rdlen..] == old(rbuf[rdlen..])
    {
      hide Bytes, Received;
      var rbufLocal := ReadFifo(rdlen + 2);
      ghost var got := rbufLocal[..rdlen + 2];
      var i := 0;
      while i < rdlen
        invariant i <= rdlen && rbufLocal[..rdlen + 2] == got
        invariant rbuf[..i] == got[2..2 + i] && rbuf[rdlen..] == old(rbuf[rdlen..])
        modifies rbuf
      {
        rbuf[i] := rbufLocal[2 + i];
        i := i + 1;
      }
    }

    /** A transfer of one or two messages. The reply goes to rbuf. */
    method Transfer(msgs: seq<Msg>, rbuf: array<Byte>) returns (rc: int)
      requires Supported(msgs) ==> Fits(msgs) && ReadLen(msgs) <= rbuf.Length
      modifies this`ticks, this`log, this`xferProgress, rbuf
      ensures rc == -EIO || rc == |msgs|
      ensures suspended || !Supported(msgs) ==> rc == -EIO && log == old(log) && ticks == old(ticks)
      ensures suspended ==> xferProgress == old(xferProgress)
      ensures !suspended ==> xferProgress == 0
      ensures ticks <= old(ticks) + READS_BOUND
      ensures rc < 0 ==> rbuf[..] == old(rbuf[..])
      ensures rc >= 0 ==> exists closing :: log == old(log) + Script(msgs, clkCtl) + closing && Closing(closing)
      ensures rc >= 0 ==> SawDone(old(ticks), ticks, ReadLen(msgs))
      ensures rc >= 0 && ReadLen(msgs) == 0 ==> rbuf[..] == old(rbuf[..])
      ensures rc >= 0 && ReadLen(msgs) > 0 ==> rbuf[ReadLen(msgs)..] == old(rbuf[ReadLen(msgs)..])
      ensures rc >= 0 && ReadLen(msgs) > 0 ==>
        exists from :: old(ticks) <= from < ticks && rbuf[..ReadLen(msgs)] == Reply(from, ReadLen(msgs))
    {
      if suspended {
        return -EIO;
      }
      xferProgress := 1;
      if !(|msgs| == 1 || (|msgs| == 2 && !msgs[0].read && msgs[1].read)) {
        xferProgress := 0;
        return -EIO;
      }
      var m := msgs[|msgs| - 1];
      var rdlen := if m.read then m.len else 0;
      if rdlen > MAX_READ {
        rdlen := MAX_READ;
      }
      hide Fits, Script, Closing, WordCount;
      rc := Exchange(msgs, rdlen, rbuf);
      xferProgress := 0;
    }

    // The transfer itself, from the tags to the final reset.
    method Exchange(msgs: seq<Msg>, rdlen: nat, rbuf: array<Byte>) returns (rc: int)
      requires Supported(msgs) && Fits(msgs) && ReadLen(msgs) == rdlen <= rbuf.Length
      modifies this`ticks, this`log, rbuf
      ensures rc == -EIO || rc == |msgs|
      ensures ticks <= old(ticks) + READS_BOUND
      ensures rc < 0 || rdlen == 0 ==> rbuf[..] == old(rbuf[..])
      ensures rc >= 0 ==> exists closing :: log == old(log) + Script(msgs, clkCtl) + closing && Closing(closing)
      ensures rc >= 0 ==> SawDone(old(ticks), ticks, rdlen)
      ensures rc >= 0 && rdlen > 0 ==> rbuf[rdlen..] == old(rbuf[rdlen..])
      ensures rc >= 0 && rdlen > 0 ==>
        exists from :: old(ticks) <= from < ticks && rbuf[..rdlen] == Reply(from, rdlen)
    {
      hide Setup, Pushes, Pack, Encode, Done, Fits, Closing;
      var tags, nt := BuildTags(msgs);
      rc := Start(tags, nt, rdlen);
      if rc != 0 {
        return;
      }
      ghost var acks;
      rc, acks := WaitDone(rdlen);
      if rc == 0 {
        if rdlen != 0 {
          Drain(rdlen, rbuf);
        }
        rc := |msgs|;
      }
      ghost var ran := log;
      var _ := UpdateState(QUP_RESET_STATE);
      ClosingReset(acks, log[|ran|..]);
      assert rc >= 0 ==> log == old(log) + Script(msgs, clkCtl) + (acks + log[|ran|..]);
    }

    // Prepared, fed and set running.
    method Start(tags: array<Byte>, nt: nat, rdlen: nat) returns (rc: int)
      requires nt <= tags.Length
      modifies this`ticks, this`log
      ensures old(ticks) <= ticks <= old(ticks) + 2 * RESET_LIMIT + 6 * POLL_LIMIT
      ensures rc == 0 || rc == -EIO
      ensures rc == 0 ==>
        log == old(log) + (Setup(nt, rdlen, clkCtl) + Pushes(Pack(tags[..nt])) + [Write(QUP_STATE, QUP_RUN_STATE)])
    {
      hide Setup, Pushes, Pack;
      rc := Prepare(nt, rdlen);
      if rc != 0 {
        return;
      }
      PushTags(tags, nt);
      rc := UpdateState(QUP_RUN_STATE);
    }
  }

  // The bytes of one word, as many as are left.
  method UnpackWord(rbufLocal: array<Byte>, w: nat, i: nat, total: nat, ghost words: seq<nat>) returns (ri: nat)
    requires i % 4 == 0 && i < total <= rbufLocal.Length && WordCount(total) <= |words| && words[i / 4] == w
    requires forall k :: 0 <= k < i ==> rbufLocal[k] == ByteOf(words[k / 4], k % 4)
    modifies rbufLocal
    ensures ri == Least(i + 4, total)
    ensures forall k :: 0 <= k < ri ==> rbufLocal[k] == ByteOf(words[k / 4], k % 4)
  {
    hide ByteOf;
    ri := i;
    var b := 0;
    while b < 4 && i + b < total
      invariant b <= 4 && ri == i + b <= total
      invariant forall k :: 0 <= k < ri ==> rbufLocal[k] == ByteOf(words[k / 4], k % 4)
    {
      rbufLocal[ri] := ByteOf(w, b);
      ri := ri + 1;
      b := b + 1;
    }
  }

  lemma ClosingReset(acks: seq<Write>, more: seq<Write>)
    requires Closing(acks) && (more == [] || more == [Write(QUP_STATE, QUP_RESET_STATE)])
    ensures Closing(acks + more)
  {
  }

  lemma PushesSnoc(words: seq<nat>, w: nat)
    ensures Pushes(words + [w]) == Pushes(words) + [Write(QUP_OUT_FIFO_BASE, w)]
  {
  }

  lemma {:induction false} FifoConcat(a: seq<Write>, b: seq<Write>)
    ensures Fifo(a + b) == Fifo(a) + Fifo(b)
  {
    if a == [] {
      assert a + b == b;
    } else {
      var head: seq<nat> := if a[0].offset == QUP_OUT_FIFO_BASE then [a[0].value] else [];
      assert (a + b)[1..] == a[1..] + b && (a + b)[0] == a[0];
      FifoConcat(a[1..], b);
      assert Fifo(a + b) == head + Fifo(a[1..] + b);
      assert head + (Fifo(a[1..]) + Fifo(b)) == head + Fifo(a[1..]) + Fifo(b);
    }
  }

  lemma {:induction false} FifoPushes(words: seq<nat>)
    ensures Fifo(Pushes(words)) == words
  {
    if words != [] {
      assert Pushes(words)[1..] == Pushes(words[1..]);
      FifoPushes(words[1..]);
    }
  }

  lemma {:induction false} FifoOther(ws: seq<Write>)
    requires forall k :: 0 <= k < |ws| ==> ws[k].offset != QUP_OUT_FIFO_BASE
    ensures Fifo(ws) == []
  {
    if ws != [] {
      FifoOther(ws[1..]);
    }
  }

  lemma SetupFacts(nt: nat, rdlen: nat, clkCtl: nat)
    ensures var ws := Setup(nt, rdlen, clkCtl);
      && |ws| > 5 && ws[5] == Write(QUP_MX_WRITE_CNT, nt)
      && forall k :: 0 <= k < |ws| ==> ws[k].offset != QUP_OUT_FIFO_BASE
  {
  }

  lemma ScriptFifo(msgs: seq<Msg>, clkCtl: nat, closing: seq<Write>)
    requires Supported(msgs) && Closing(closing)
    ensures Fifo(Script(msgs, clkCtl) + closing) == Pack(Encode(msgs))
    ensures Write(QUP_MX_WRITE_CNT, |Encode(msgs)|) in Script(msgs, clkCtl)
  {
    hide Encode, Setup, Pushes, Pack, Fifo;
    var t := Encode(msgs);
    var setup, run := Setup(|t|, ReadLen(msgs), clkCtl), [Write(QUP_STATE, QUP_RUN_STATE)];
    SetupFacts(|t|, ReadLen(msgs), clkCtl);
    FifoConcat(setup + Pushes(Pack(t)) + run, closing);
    FifoConcat(setup + Pushes(Pack(t)), run);
    FifoConcat(setup, Pushes(Pack(t)));
    FifoPushes(Pack(t));
    FifoOther(setup);
    FifoOther(run);
    FifoOther(closing);
    assert Script(msgs, clkCtl)[5] == setup[5];
  }

  /** What a transfer feeds the controller, unpacked, decodes to the messages, with one stop, at the end, and its
      first count is the number of tags. */
  lemma ScriptDelivers(msgs: seq<Msg>, clkCtl: nat, closing: seq<Write>)
    requires Supported(msgs) && Fits(msgs) && Closing(closing)
    ensures var words := Fifo(Script(msgs, clkCtl) + closing);
      && words == Pack(Encode(msgs)) && |Encode(msgs)| <= 4 * |words|
      && Decode(Bytes(words, |Encode(msgs)|)) == Some(seq(|msgs|, i requires 0 <= i < |msgs| => Cut(Asked(msgs)[i])))
    ensures Write(QUP_MX_WRITE_CNT, |Encode(msgs)|) in Script(msgs, clkCtl)
  {
    hide Decode, Encode, Fits, Asked, Script, Fifo, Closing;
    var t := Encode(msgs);
    ScriptFifo(msgs, clkCtl, closing);
    BytesPack(t, Pack(t), |t|);
    assert t[..|t|] == t;
    DecodeEncode(msgs);
  }

  /** The controller is told how many tags come, and exactly when the last message reads, how many bytes will come back:
      its two byte header and the bytes asked for, as far as they fit. */
  lemma ScriptCounts(msgs: seq<Msg>, clkCtl: nat, v: nat)
    requires Supported(msgs)
    ensures Write(QUP_MX_WRITE_CNT, v) in Script(msgs, clkCtl) <==> v == |Encode(msgs)|
    ensures var last := msgs[|msgs| - 1]; var n := if last.len > MAX_READ then MAX_READ else last.len;
      && (Write(QUP_MX_READ_CNT, v) in Script(msgs, clkCtl) <==> last.read && n > 0 && v == n + 2)
      && (Write(QUP_MX_INPUT_CNT, v) in Script(msgs, clkCtl) <==> last.read && n > 0 && v == n + 2)
  {
    hide Encode, Pack, Pushes, Setup;
    var nt, rdlen := |Encode(msgs)|, ReadLen(msgs);
    SetupCounts(nt, rdlen, clkCtl, v);
    PushesOnly(Pack(Encode(msgs)));
  }

  lemma SetupCounts(nt: nat, rdlen: nat, clkCtl: nat, v: nat)
    ensures Write(QUP_MX_WRITE_CNT, v) in Setup(nt, rdlen, clkCtl) <==> v == nt
    ensures Write(QUP_MX_READ_CNT, v) in Setup(nt, rdlen, clkCtl) <==> rdlen > 0 && v == rdlen + 2
    ensures Write(QUP_MX_INPUT_CNT, v) in Setup(nt, rdlen, clkCtl) <==> rdlen > 0 && v == rdlen + 2
  {
    var c := Counts(nt, rdlen);
    assert c[2] == Write(QUP_MX_WRITE_CNT, nt);
    if rdlen > 0 {
      assert c[3] == Write(QUP_MX_READ_CNT, rdlen + 2) && c[4] == Write(QUP_MX_INPUT_CNT, rdlen + 2);
    }
  }

  lemma PushesOnly(words: seq<nat>)
    ensures forall w :: w in Pushes(words) ==> w.offset == QUP_OUT_FIFO_BASE
  {
  }

  /** A reply packed the way the tags are is handed on from its third byte on. */
  lemma ReplyRight(dev: QupDev, from: nat, rdlen: nat, stream: seq<Byte>)
    requires rdlen + 2 <= |stream| && dev.Received(from, WordCount(rdlen + 2)) <= Pack(stream)
    ensures dev.Reply(from, rdlen) == stream[2..rdlen + 2]
  {
    BytesPack(stream, dev.Received(from, WordCount(rdlen + 2)), rdlen + 2);
  }
}
