/** The I2C controller's tag stream: messages become start, write and read tags in a byte buffer, which is
    packed into little-endian words for the output FIFO; replies come back packed behind a two byte header. */
module I2cTags {
  import opened Helpers

  type Byte = x: int | 0 <= x < 256

  // ----- messages and tags -----

  // A message; len and data are the same length for a write, and a read has no data yet.
  datatype Msg = Msg(addr: nat, read: bool, len: nat, data: seq<Byte>)

  const START: Byte := 0x81
  const DATAWR: Byte := 0x82
  const DATAWR_STOP: Byte := 0x83
  const DATARD_STOP: Byte := 0x87

  const TAGS_SIZE: nat := 64
  const MAX_READ: nat := 60

  /** The patterns the engine accepts: a write, a read, or a write followed by a read. */
  predicate Supported(msgs: seq<Msg>) {
    || |msgs| == 1
    || (|msgs| == 2 && !msgs[0].read && msgs[1].read)
  }

  predicate WellFormed(m: Msg) { m.len < 0x1_0000 && (!m.read ==> |m.data| == m.len) }

  /** The room a message takes in the tag buffer. */
  function Room(m: Msg): nat { if m.read then 4 else 4 + m.len }

  predicate Fits(msgs: seq<Msg>)
    requires Supported(msgs)
  {
    && (forall i :: 0 <= i < |msgs| ==> WellFormed(msgs[i]))
    && (if |msgs| == 2 then Room(msgs[0]) + Room(msgs[1]) else Room(msgs[0])) <= TAGS_SIZE
  }

  function U8(x: nat): Byte { x % 256 }

  /** The tags of one message; the last one of a transfer stops. */
  function Tags(m: Msg, last: bool): seq<Byte>
  {
    if m.read then [START, U8(m.addr * 2 + 1), DATARD_STOP, U8(m.len)]
    else [START, U8(m.addr * 2), if last then DATAWR_STOP else DATAWR, U8(m.len)] + m.data
  }

  function Encode(msgs: seq<Msg>): seq<Byte>
    requires Supported(msgs)
  {
    if |msgs| == 2 then Tags(msgs[0], false) + Tags(msgs[1], true) else Tags(msgs[0], true)
  }

  /** How many bytes of the reply are handed on. */
  function ReadLen(msgs: seq<Msg>): nat
    requires Supported(msgs)
  {
    var m := msgs[|msgs| - 1];
    if !m.read then 0 else if m.len > MAX_READ then MAX_READ else m.len
  }

  // ----- what the bus does with a tag stream -----

  // One bus transaction.
  datatype Xfer = Xfer(addr: nat, read: bool, len: nat, data: seq<Byte>, stop: bool)

  function Cons(x: Xfer, rest: Option<seq<Xfer>>): Option<seq<Xfer>> {
    match rest
    case None => None
    case Some(xs) => Some([x] + xs)
  }

  function Len(t: seq<Byte>): nat
    requires |t| >= 4
  {
    t[3]
  }

  /** The transactions that a tag stream stands for, if it is a sequence of whole tags. */
  function Decode(t: seq<Byte>): Option<seq<Xfer>>
    decreases |t|
  {
    if t == [] then Some([])
    else if |t| < 4 || t[0] != START then None
    else if t[2] == DATARD_STOP && t[1] % 2 == 1 then
      Cons(Xfer(t[1] / 2, true, t[3], [], true), Decode(t[4..]))
    else if (t[2] == DATAWR || t[2] == DATAWR_STOP) && t[1] % 2 == 0 && |t| >= 4 + Len(t) then
      Cons(Xfer(t[1] / 2, false, Len(t), t[4..4 + Len(t)], t[2] == DATAWR_STOP), Decode(t[4 + Len(t)..]))
    else None
  }

  /** The transactions that were asked for: one a message, a stop after the last and nowhere else. */
  function Asked(msgs: seq<Msg>): (xs: seq<Xfer>)
    ensures |xs| == |msgs|
  {
    seq(|msgs|, i requires 0 <= i < |msgs| =>
      var m := msgs[i];
      Xfer(m.addr, m.read, m.len, if m.read then [] else m.data, i == |msgs| - 1))
  }

  /** An address keeps its seven low bits, a length its eight. */
  function Cut(x: Xfer): Xfer { x.(addr := x.addr % 128, len := x.len % 256) }

  lemma DecodeRead(a: Byte, n: Byte, rest: seq<Byte>)
    requires a % 2 == 1
    ensures Decode([START, a, DATARD_STOP, n] + rest) == Cons(Xfer(a / 2, true, n, [], true), Decode(rest))
  {
    var t := [START, a, DATARD_STOP, n] + rest;
    assert t[0] == START && t[1] == a && t[2] == DATARD_STOP && t[3] == n && t[4..] == rest;
  }

  lemma DecodeWrite(a: Byte, last: bool, data: seq<Byte>, rest: seq<Byte>)
    requires a % 2 == 0 && |data| < 256
    ensures Decode([START, a, if last then DATAWR_STOP else DATAWR, |data|] + data + rest)
         == Cons(Xfer(a / 2, false, |data|, data, last), Decode(rest))
  {
    var head: seq<Byte> := [START, a, if last then DATAWR_STOP else DATAWR, |data|];
    var t := head + data + rest;
    assert t[0] == START && t[1] == a && t[2] == head[2] && t[3] == |data|;
    assert t[4..4 + |data|] == data && t[4 + |data|..] == rest;
  }

  lemma DecodeOne(m: Msg, last: bool, rest: seq<Byte>)
    requires WellFormed(m) && (m.read ==> last) && (!m.read ==> m.len < 256)
    ensures Decode(Tags(m, last) + rest)
         == Cons(Cut(Xfer(m.addr, m.read, m.len, if m.read then [] else m.data, last)), Decode(rest))
  {
    hide Decode;
    assert (m.addr * 2) % 256 == m.addr % 128 * 2;
    assert (m.addr * 2 + 1) % 256 == m.addr % 128 * 2 + 1;
    if m.read {
      DecodeRead(U8(m.addr * 2 + 1), U8(m.len), rest);
    } else {
      DecodeWrite(U8(m.addr * 2), last, m.data, rest);
    }
  }

  /** Every transfer that fits decodes to its messages, with one stop, at the end. */
  lemma DecodeEncode(msgs: seq<Msg>)
    requires Supported(msgs) && Fits(msgs)
    ensures Decode(Encode(msgs)) == Some(seq(|msgs|, i requires 0 <= i < |msgs| => Cut(Asked(msgs)[i])))
  {
    var cut := seq(|msgs|, i requires 0 <= i < |msgs| => Cut(Asked(msgs)[i]));
    assert WellFormed(msgs[0]);
    var nothing: seq<Byte> := [];
    assert Decode(nothing) == Some([]);
    if |msgs| == 2 {
      assert WellFormed(msgs[1]);
      assert Tags(msgs[1], true) + nothing == Tags(msgs[1], true);
      DecodeOne(msgs[1], true, nothing);
      DecodeOne(msgs[0], false, Tags(msgs[1], true));
      assert cut == [cut[0]] + ([cut[1]] + []);
    } else {
      assert Tags(msgs[0], true) + nothing == Tags(msgs[0], true);
      DecodeOne(msgs[0], true, nothing);
      assert cut == [cut[0]] + [];
    }
  }

  /** The stream means exactly what was asked for when the addresses have seven bits and a read has eight. */
  lemma Faithful(msgs: seq<Msg>)
    requires Supported(msgs) && Fits(msgs)
    ensures Decode(Encode(msgs)) == Some(Asked(msgs))
      <==> forall i :: 0 <= i < |msgs| ==> msgs[i].addr < 128 && msgs[i].len < 256
  {
    hide Decode, Encode, Asked;
    DecodeEncode(msgs);
    var asked := Asked(msgs);
    var cut := seq(|msgs|, i requires 0 <= i < |msgs| => Cut(asked[i]));
    forall i | 0 <= i < |msgs|
      ensures cut[i] == asked[i] <==> msgs[i].addr < 128 && msgs[i].len < 256
    {
      AskedAt(msgs, i);
    }
    if forall i :: 0 <= i < |msgs| ==> msgs[i].addr < 128 && msgs[i].len < 256 {
      assert cut == asked;
    }
  }

  lemma AskedAt(msgs: seq<Msg>, i: nat)
    requires i < |msgs|
    ensures Asked(msgs)[i].addr == msgs[i].addr && Asked(msgs)[i].len == msgs[i].len
  {
  }

  /** The length put in a read tag, the length asked for and the number of bytes handed on agree only up to 60. */
  lemma ReadsInFull(msgs: seq<Msg>)
    requires Supported(msgs) && Fits(msgs) && msgs[|msgs| - 1].read
    ensures var m := msgs[|msgs| - 1];
      ReadLen(msgs) == m.len && Tags(m, true)[3] == m.len <==> m.len <= MAX_READ
  {
  }

  // ----- building the stream -----

  method PutByte(tags: array<Byte>, nt: nat, b: Byte) returns (next: nat)
    requires nt < tags.Length
    modifies tags
    ensures next == nt + 1 && tags[..next] == old(tags[..nt]) + [b]
  {
    tags[nt] := b;
    next := nt + 1;
  }

  // The tags of one message, behind those already there.
  method PutMessage(tags: array<Byte>, nt: nat, m: Msg, last: bool) returns (next: nat)
    requires WellFormed(m) && nt + Room(m) <= tags.Length
    modifies tags
    ensures next == nt + Room(m) && tags[..next] == old(tags[..nt]) + Tags(m, last)
  {
    next := PutByte(tags, nt, START);
    if m.read {
      next := PutByte(tags, next, U8(m.addr * 2 + 1));
      next := PutByte(tags, next, DATARD_STOP);
      next := PutByte(tags, next, U8(m.len));
    } else {
      next := PutByte(tags, next, U8(m.addr * 2));
      next := PutByte(tags, next, if last then DATAWR_STOP else DATAWR);
      next := PutByte(tags, next, U8(m.len));
      var j := 0;
      while j < m.len
        invariant j <= m.len && next == nt + 4 + j
        invariant tags[..next] == old(tags[..nt])
          + [START, U8(m.addr * 2), if last then DATAWR_STOP else DATAWR, U8(m.len)] + m.data[..j]
      {
        next := PutByte(tags, next, m.data[j]);
        j := j + 1;
      }
      assert m.data[..j] == m.data;
    }
  }

  method BuildTags(msgs: seq<Msg>) returns (tags: array<Byte>, nt: nat)
    requires Supported(msgs) && Fits(msgs)
    ensures fresh(tags) && nt <= tags.Length == TAGS_SIZE && tags[..nt] == Encode(msgs)
  {
    hide Tags;
    assert WellFormed(msgs[0]);
    tags := new Byte[TAGS_SIZE];
    nt := PutMessage(tags, 0, msgs[0], |msgs| == 1);
    if |msgs| == 2 {
      assert WellFormed(msgs[1]);
      nt := PutMessage(tags, nt, msgs[1], true);
    }
  }

  // ----- words -----

  /** What a shift by b bytes multiplies by. */
  function Shift(b: nat): (p: nat)
    requires b < 4
    ensures p > 0
  {
    if b == 0 then 1 else if b == 1 then 0x100 else if b == 2 then 0x1_0000 else 0x100_0000
  }

  function At(t: seq<Byte>, k: nat): Byte { if k < |t| then t[k] else 0 }

  /** Up to four bytes in one word, the first in the lowest place. */
  function Word(t: seq<Byte>): nat
    requires |t| <= 4
  {
    At(t, 0) + 0x100 * At(t, 1) + 0x1_0000 * At(t, 2) + 0x100_0000 * At(t, 3)
  }

  function ByteOf(w: nat, b: nat): Byte
    requires b < 4
  {
    w / Shift(b) % 256
  }

  lemma ByteOfWord(t: seq<Byte>, b: nat)
    requires b < |t| <= 4
    ensures ByteOf(Word(t), b) == t[b]
  {
    Places(At(t, 0), At(t, 1), At(t, 2), At(t, 3));
  }

  lemma Places(a: Byte, b: Byte, c: Byte, d: Byte)
    ensures var w := a + 0x100 * b + 0x1_0000 * c + 0x100_0000 * d;
      w % 256 == a && w / 0x100 % 256 == b && w / 0x1_0000 % 256 == c && w / 0x100_0000 % 256 == d
  {
    var hi: int := c + 0x100 * d;
    var mid: int := b + 0x100 * hi;
    var w: int := a + 0x100 * mid;
    assert w % 256 == a && w / 0x100 == mid;
    assert mid % 256 == b && mid / 0x100 == hi && w / 0x1_0000 == hi;
    assert hi % 256 == c && hi / 0x100 == d && w / 0x100_0000 == d;
  }

  lemma WordSnoc(t: seq<Byte>, x: Byte)
    requires |t| < 4
    ensures Word(t + [x]) == Word(t) + x * Shift(|t|)
  {
  }

  function Least(a: nat, b: nat): nat { if a <= b then a else b }

  function WordCount(n: nat): nat { (n + 3) / 4 }

  function WordAt(t: seq<Byte>, j: nat): nat
    requires j < WordCount(|t|)
  {
    Word(t[4 * j..Least(4 * j + 4, |t|)])
  }

  function Pack(t: seq<Byte>): seq<nat> {
    seq(WordCount(|t|), j requires 0 <= j < WordCount(|t|) => WordAt(t, j))
  }

  /** The first n bytes of a sequence of words. */
  function Bytes(words: seq<nat>, n: nat): seq<Byte>
    requires n <= 4 * |words|
  {
    seq(n, k requires 0 <= k < n => ByteOf(words[k / 4], k % 4))
  }

  /** Unpacking any number of bytes of a packed stream gives those bytes. */
  lemma BytesPack(t: seq<Byte>, words: seq<nat>, n: nat)
    requires n <= |t| && n <= 4 * |words| && words <= Pack(t)
    ensures Bytes(words, n) == t[..n]
  {
    forall k | 0 <= k < n
      ensures Bytes(words, n)[k] == t[k]
    {
      var j := k / 4;
      var four := t[4 * j..Least(4 * j + 4, |t|)];
      assert words[j] == Pack(t)[j] == Word(four);
      ByteOfWord(four, k % 4);
    }
  }

  /** The packing loop: byte b of a word is shifted into its own place, so or-ing it in is adding it. */
  method PackWord(tags: array<Byte>, i: nat, nt: nat) returns (w: nat)
    requires i < nt <= tags.Length
    ensures w == Word(tags[i..Least(i + 4, nt)])
  {
    w := 0;
    var b := 0;
    while b < 4 && i + b < nt
      invariant b <= 4 && i + b <= nt && w == Word(tags[i..i + b])
    {
      WordSnoc(tags[i..i + b], tags[i + b]);
      assert tags[i..i + b + 1] == tags[i..i + b] + [tags[i + b]];
      w := w + tags[i + b] * Shift(b);
      b := b + 1;
    }
  }
}
