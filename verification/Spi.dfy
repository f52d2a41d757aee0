/** SPI messages: header, payload, splitting of long buffers, and what a word-addressed
    device makes of them. The bus is a list of replies that nothing is known about. */
module Spi {
  import opened Bits
  import opened Errno
  import opened Gtable
  import opened Layouts
  import opened EntryCodec
  import opened EntryAccess
  import opened TableHeader

  const CORE_ADDR: uint64 := 0x000000
  const SIZE_SPI_MSG_HEADER := 4
  const SIZE_SPI_MSG_MAXLEN := 256

  datatype Access = SpiRead | SpiWrite

  // ----- the header

  datatype Message = Message(access: uint64, readCount: uint64, address: uint64)

  /** access, read_count, address */
  function MessageLayout(): (L: Layout)
    ensures WellFormed(L, 3, 4)
  {
    Field(0, 31, 31, Field(1, 30, 25, Field(2, 24, 4, Done)))
  }

  /** spi_message_pack */
  function MessageBytes(m: Message): (H: seq<byte>)
    ensures |H| == 4
  {
    Bytes(TOOL_QUIRKS, 4, PackFields(MessageLayout(), [m.access, m.readCount, m.address], 0, 4))
  }

  /** spi_message_unpack */
  function ReadMessage(H: seq<byte>): Message
    requires |H| == 4
  {
    var n := Num(TOOL_QUIRKS, H);
    Message(Slice(n, 31, 31), Slice(n, 30, 25), Slice(n, 24, 4))
  }

  lemma UnpackMessageFields(n: nat)
    ensures UnpackFields(MessageLayout(), n, Zeros(3), 4) == [Slice(n, 31, 31), Slice(n, 30, 25), Slice(n, 24, 4)]
  {
    hide Slice;
  }

  lemma CarriedMessage(e: Entry)
    requires |e| == 3
    ensures Carried(MessageLayout(), e, Zeros(3), 4) == [Cut(e[0], 31, 31), Cut(e[1], 30, 25), Cut(e[2], 24, 4)]
  {
    hide Cut;
  }

  /** A header is read back as it was written, each member truncated to its width. */
  lemma MessageRoundTrip(m: Message)
    ensures ReadMessage(MessageBytes(m)) ==
            Message(Cut(m.access, 31, 31), Cut(m.readCount, 30, 25), Cut(m.address, 24, 4))
  {
    hide Slice, Cut, PackFields, UnpackFields, Carried, MessageLayout, Num, Bytes;
    var e: Entry := [m.access, m.readCount, m.address];
    var n := PackFields(MessageLayout(), e, 0, 4);
    assert n < Pow2(32) by {
      assert 0 < Pow2(8 * 4);
      PackedFits(MessageLayout(), e, 0, 4);
    }
    NumOfBytes(TOOL_QUIRKS, 4, n);
    LowId(n, 32);
    FieldsRoundTrip(MessageLayout(), e, 0, Zeros(3), 4);
    UnpackMessageFields(n);
    CarriedMessage(e);
  }

  function Code(mode: Access): uint64 {
    if mode.SpiRead? then 0 else 1
  }

  function ZeroPayload(n: nat): (z: seq<byte>)
    ensures |z| == n && forall i :: 0 <= i < n ==> z[i] == 0
  {
    seq(n, i => 0)
  }

  /** What is transmitted to read |data| bytes, or to write data. */
  function Tx(mode: Access, address: uint64, data: seq<byte>): (tx: seq<byte>)
    requires |data| < 0x8000_0000
    ensures |tx| == 4 + |data|
  {
    if mode.SpiRead? then MessageBytes(Message(0, |data| / 4, address)) + ZeroPayload(|data|)
    else MessageBytes(Message(1, 0, address)) + data
  }

  lemma Pow2Of21()
    ensures Pow2(21) == 0x20_0000
  {
    hide Pow2;
    Pow2Values();
    Pow2Add(8, 8);
    Pow2Add(16, 5);
    Pow2Of5();
  }

  lemma Pow2Of5()
    ensures Pow2(5) == 32
  {
  }

  /** The header of a write: the address survives if it fits 21 bits. */
  lemma WriteHeader(address: uint64, data: seq<byte>)
    requires address < 0x20_0000 && |data| < 0x8000_0000
    ensures ReadMessage(Tx(SpiWrite, address, data)[..4]) == Message(1, 0, address)
  {
    hide Cut, MessageBytes, ReadMessage;
    MessageRoundTrip(Message(1, 0, address));
    Pow2Of21();
    CutId(address, 24, 4, 21);
    SmallCuts();
  }

  lemma SmallCuts()
    ensures Cut(1, 31, 31) == 1 && Cut(0, 31, 31) == 0 && Cut(0, 30, 25) == 0
  {
    hide Cut;
    assert 1 < Pow2(1) && 0 < Pow2(6);
    CutId(1, 31, 31, 1);
    CutId(0, 31, 31, 1);
    CutId(0, 30, 25, 6);
  }

  // ----- the bus

  /** The outcome of one transfer on the bus: a return code and the bytes received. */
  datatype Reply = Reply(rc: int, rx: seq<byte>)

  /** One transfer that was attempted. */
  datatype Event = Event(tx: seq<byte>, rx: seq<byte>, rc: int)

  class SpiSetup {
    var dryRun: bool
    var deviceId: uint64
    /** What the bus is going to answer. */
    var replies: seq<Reply>
    /** The transfers so far. */
    var events: seq<Event>

    constructor (dry: bool, id: uint64, answers: seq<Reply>)
      ensures dryRun == dry && deviceId == id && replies == answers && events == []
    {
      dryRun, deviceId, replies, events := dry, id, answers, [];
    }

    /** spi_transfer; a dry run sends nothing and cannot fail. */
    method Transfer(tx: array<byte>, rx: array<byte>, size: nat) returns (rc: int)
      requires tx != rx && tx.Length == size == rx.Length
      modifies this`replies, this`events, rx
      ensures events == old(events) + [Event(tx[..], rx[..], rc)]
      ensures tx[..] == old(tx[..])
      ensures dryRun ==> rc == size && rx[..] == old(rx[..]) && replies == old(replies)
      ensures !dryRun && old(replies) != [] ==> rc == old(replies)[0].rc && replies == old(replies)[1..]
    {
      if dryRun {
        rc := size;
      } else {
        var reply := if replies == [] then Reply(-EIO, []) else replies[0];
        replies := if replies == [] then [] else replies[1..];
        rc := reply.rc;
        for i := 0 to size
          modifies rx
        {
          rx[i] := if i < |reply.rx| then reply.rx[i] else 0;
        }
      }
      events := events + [Event(tx[..], rx[..], rc)];
    }

    /** spi_send_packed_buf on the size bytes of buf at off: exactly one transfer. */
    method SendPackedBuf(mode: Access, regAddr: uint64, buf: array<byte>, off: nat, size: nat) returns (rc: int)
      requires off + size <= buf.Length && size < 0x8000_0000
      modifies this`replies, this`events, buf
      ensures |events| == |old(events)| + 1 && events[..|old(events)|] == old(events)
      ensures var e := events[|old(events)|];
        && e.tx == Tx(mode, regAddr, old(buf[off..off + size])) && e.rc == rc && |e.rx| == size + 4
        && buf[..] == (if mode.SpiRead? && rc >= 0 then Splice(old(buf[..]), off, e.rx[4..]) else old(buf[..]))
    {
      hide MessageBytes, Splice, Tx;
      var tx, rx := new byte[size + SIZE_SPI_MSG_HEADER], new byte[size + SIZE_SPI_MSG_HEADER];
      Clear(rx, 0, rx.Length);
      PackMessage(tx, Message(Code(mode), if mode.SpiRead? then size / 4 else 0, regAddr));
      FillPayload(tx, mode, buf, off, size);
      assert tx[..][..4] == tx[..4];
      assert tx[..][4..] == tx[4..];
      TxIs(tx[..], mode, regAddr, buf[off..off + size]);
      rc := Transfer(tx, rx, tx.Length);
      if rc >= 0 && mode.SpiRead? {
        CopyReply(buf, off, rx, size);
      }
    }
  }

  /** The payload: zeros for a read, the bytes of buf for a write. */
  method FillPayload(tx: array<byte>, mode: Access, buf: array<byte>, off: nat, size: nat)
    requires tx.Length == size + 4 && off + size <= buf.Length && tx != buf
    modifies tx
    ensures tx[..4] == old(tx[..4])
    ensures tx[4..] == if mode.SpiRead? then ZeroPayload(size) else buf[off..off + size]
  {
    for i := 0 to size
      invariant tx[..4] == old(tx[..4])
      invariant tx[4..4 + i] == if mode.SpiRead? then ZeroPayload(i) else buf[off..off + i]
    {
      tx[SIZE_SPI_MSG_HEADER + i] := if mode.SpiRead? then 0 else buf[off + i];
    }
  }

  method CopyReply(buf: array<byte>, off: nat, rx: array<byte>, size: nat)
    requires rx.Length == size + 4 && off + size <= buf.Length && rx != buf
    modifies buf
    ensures buf[..] == Splice(old(buf[..]), off, rx[..][4..])
  {
    ghost var T: seq<byte> := buf[..];
    for i := 0 to size
      invariant forall j :: 0 <= j < buf.Length ==> buf[j] == if off <= j < off + i then rx[4 + j - off] else T[j]
    {
      buf[off + i] := rx[SIZE_SPI_MSG_HEADER + i];
    }
  }

  lemma TxIs(tx: seq<byte>, mode: Access, address: uint64, data: seq<byte>)
    requires |tx| == 4 + |data| && |data| < 0x8000_0000
    requires tx[..4] == MessageBytes(Message(Code(mode), if mode.SpiRead? then |data| / 4 else 0, address))
    requires tx[4..] == if mode.SpiRead? then ZeroPayload(|data|) else data
    ensures tx == Tx(mode, address, data)
  {
    hide MessageBytes;
    assert tx == tx[..4] + tx[4..];
  }

  /** spi_message_pack into the first four bytes of tx. */
  method PackMessage(tx: array<byte>, m: Message)
    requires 4 <= tx.Length
    modifies tx
    ensures tx[..4] == MessageBytes(m)
  {
    hide PackFields, Num, Bytes, MessageLayout, WellFormed, Splice;
    ghost var T: seq<byte>, Z: seq<byte> := tx[..], seq(4, i => 0);
    Clear(tx, 0, 4);
    ZeroBytes(4);
    SpliceAgain(T, 0, Z, MessageBytes(m));
    assert tx[0..4] == tx[..][0..4];
    MessageBytesIs(m);
    SpliceReads(T, 0, MessageBytes(m), 0, 4);
    assert MessageBytes(m)[0..4] == MessageBytes(m);
    var packed := PackFieldsInto(tx, 0, MessageLayout(), [m.access, m.readCount, m.address], 4);
    assert tx[..] == Splice(T, 0, MessageBytes(m));
    assert tx[..4] == tx[..][0..4];
  }

  lemma MessageBytesIs(m: Message)
    ensures MessageBytes(m) ==
            Bytes(TOOL_QUIRKS, 4, PackFields(MessageLayout(), [m.access, m.readCount, m.address], 0, 4))
  {
    hide PackFields, Bytes, MessageLayout;
  }

  // ----- integers

  /** A read of `size` bytes at an address. */
  ghost predicate IsRead(e: Event, address: uint64, size: nat) {
    && size < 0x100 && |e.rx| == size + 4
    && e.tx == Tx(SpiRead, address, ZeroPayload(size))
  }

  /** The number that a read received. */
  function ValueOf(e: Event, size: nat): uint64
    requires size == 4 || size == 8
  {
    if |e.rx| == size + 4 then GetField(TOOL_QUIRKS, e.rx[4..], 8 * size - 1, 0) else 0
  }

  /** The bytes transmitted for a read depend on the length alone. */
  lemma SameTx(mode: Access, address: uint64, data: seq<byte>, data': seq<byte>)
    requires |data| == |data'| < 0x8000_0000 && (mode.SpiRead? || data == data')
    ensures Tx(mode, address, data) == Tx(mode, address, data')
  {
  }

  /** spi_send_int, reading; the value is unpacked even if the transfer fails. */
  method ReadInt(spi: SpiSetup, regAddr: uint64, size: nat) returns (rc: int, value: uint64, ghost e: Event)
    requires size == 4 || size == 8
    modifies spi`replies, spi`events
    ensures spi.events == old(spi.events) + [e] && e.rc == rc
    ensures IsRead(e, regAddr, size)
    ensures rc >= 0 ==> value == ValueOf(e, size)
  {
    hide Tx, Splice, GetField;
    var packedBuf := new byte[size];
    ghost var T: seq<byte> := packedBuf[..];
    assert |packedBuf[0..size]| == size;
    SameTx(SpiRead, regAddr, packedBuf[0..size], ZeroPayload(size));
    rc := spi.SendPackedBuf(SpiRead, regAddr, packedBuf, 0, size);
    e := spi.events[|old(spi.events)|];
    assert spi.events == spi.events[..|old(spi.events)|] + [e];
    WholeSplice(T, e.rx[4..]);
    assert packedBuf[0..size] == packedBuf[..];
    value := UnpackBoxes(packedBuf, 0, 8 * size - 1, 0, size, TOOL_QUIRKS);
  }

  // ----- long buffers

  datatype Chunk = Chunk(address: uint64, data: seq<byte>)

  /** The messages that a long buffer is split into. */
  function Chunks(address: nat, data: seq<byte>): (cs: seq<Chunk>)
    requires address + |data| / 4 < 0x1_0000_0000_0000_0000
    ensures forall i :: 0 <= i < |cs| ==> 0 < |cs[i].data| <= SIZE_SPI_MSG_MAXLEN
    decreases |data|
  {
    if data == [] then []
    else
      var n := if |data| < SIZE_SPI_MSG_MAXLEN then |data| else SIZE_SPI_MSG_MAXLEN;
      [Chunk(address, data[..n])] + Chunks(address + n / 4, data[n..])
  }

  lemma FirstChunk(address: nat, data: seq<byte>)
    requires address + |data| / 4 < 0x1_0000_0000_0000_0000 && data != []
    ensures var n := if |data| < SIZE_SPI_MSG_MAXLEN then |data| else SIZE_SPI_MSG_MAXLEN;
            Chunks(address, data) == [Chunk(address, data[..n])] + Chunks(address + n / 4, data[n..])
  {
  }

  lemma {:induction false} ChunkCount(address: nat, data: seq<byte>)
    requires address + |data| / 4 < 0x1_0000_0000_0000_0000
    ensures |Chunks(address, data)| == (|data| + 255) / 256
    decreases |data|
  {
    if data != [] {
      var n := if |data| < SIZE_SPI_MSG_MAXLEN then |data| else SIZE_SPI_MSG_MAXLEN;
      ChunkCount(address + n / 4, data[n..]);
    }
  }

  /** ceil(len / 256) messages; chunk k is at base + 64 k and holds bytes 256 k on, 256 of
      them or, at the end, what is left. */
  lemma {:induction false} ChunksCover(address: nat, data: seq<byte>, k: nat)
    requires address + |data| / 4 < 0x1_0000_0000_0000_0000 && 256 * k < |data|
    ensures |Chunks(address, data)| == (|data| + 255) / 256 && k < |Chunks(address, data)|
    ensures var end := if 256 * k + 256 < |data| then 256 * k + 256 else |data|;
            Chunks(address, data)[k] == Chunk(address + 64 * k, data[256 * k..end])
    decreases |data|
  {
    hide Chunks;
    ChunkCount(address, data);
    FirstChunk(address, data);
    var n := if |data| < SIZE_SPI_MSG_MAXLEN then |data| else SIZE_SPI_MSG_MAXLEN;
    if k > 0 {
      ChunksCover(address + n / 4, data[n..], k - 1);
      var end := if 256 * k + 256 < |data| then 256 * k + 256 else |data|;
      assert data[n..][256 * (k - 1)..end - n] == data[256 * k..end];
    }
  }

  function Flatten(cs: seq<Chunk>): seq<byte> {
    if cs == [] then [] else cs[0].data + Flatten(cs[1..])
  }

  /** The chunks are the buffer. */
  lemma {:induction false} ChunksConcat(address: nat, data: seq<byte>)
    requires address + |data| / 4 < 0x1_0000_0000_0000_0000
    ensures Flatten(Chunks(address, data)) == data
    decreases |data|
  {
    if data != [] {
      var n := if |data| < SIZE_SPI_MSG_MAXLEN then |data| else SIZE_SPI_MSG_MAXLEN;
      ChunksConcat(address + n / 4, data[n..]);
      assert Chunks(address, data)[1..] == Chunks(address + n / 4, data[n..]);
    }
  }

  /** Event i carries chunk i. */
  ghost predicate SentAs(mode: Access, cs: seq<Chunk>, es: seq<Event>) {
    && |es| <= |cs|
    && forall i :: 0 <= i < |es| ==>
         |cs[i].data| <= SIZE_SPI_MSG_MAXLEN && es[i].tx == Tx(mode, cs[i].address, cs[i].data)
  }

  ghost predicate AllOk(es: seq<Event>) {
    forall i :: 0 <= i < |es| ==> es[i].rc >= 0
  }

  /** The payloads received. */
  function Received(es: seq<Event>): (r: seq<byte>)
    requires forall i :: 0 <= i < |es| ==> |es[i].rx| >= 4
    decreases |es|
  {
    if es == [] then [] else Received(es[..|es| - 1]) + es[|es| - 1].rx[4..]
  }

  lemma ReceivedSnoc(es: seq<Event>, e: Event)
    requires (forall i :: 0 <= i < |es| ==> |es[i].rx| >= 4) && |e.rx| >= 4
    ensures Received(es + [e]) == Received(es) + e.rx[4..]
  {
    assert (es + [e])[..|es|] == es;
  }

  lemma NoChunks(address: nat)
    requires address < 0x1_0000_0000_0000_0000
    ensures Chunks(address, []) == []
  {
  }

  lemma NextEvent(before: seq<Event>, es: seq<Event>, events: seq<Event>)
    requires |events| == |before + es| + 1 && events[..|before + es|] == before + es
    ensures events == before + (es + [events[|before + es|]])
  {
    assert events == events[..|before + es|] + [events[|before + es|]];
  }

  lemma SnocParts(es: seq<Event>, e: Event)
    ensures (es + [e])[..|es + [e]| - 1] == es && (es + [e])[|es + [e]| - 1] == e
    ensures AllOk(es + [e]) <==> AllOk(es) && e.rc >= 0
  {
    var fs := es + [e];
    if AllOk(fs) {
      forall i | 0 <= i < |es| ensures es[i].rc >= 0 { assert fs[i] == es[i]; }
      assert fs[|es|] == e;
    }
  }

  lemma SplicedPrefix(S: seq<byte>, T: seq<byte>, p: nat, R: seq<byte>, n: nat)
    requires |R| == n && p + n <= |S| == |T|
    ensures Splice(S, p, R)[..p + n] == S[..p] + R
    ensures S[p..] == T[p..] ==> Splice(S, p, R)[p + n..] == T[p + n..]
  {
    assert Splice(S, p, R)[p + n..] == S[p..][n..] && T[p..][n..] == T[p + n..];
  }

  /** The state of the loop over the chunks: T is the buffer on entry, S the buffer now. */
  ghost predicate Progress(mode: Access, T: seq<byte>, base: uint64, len: nat, address: nat, ptr: nat,
                           sent: seq<Event>, S: seq<byte>)
    requires ptr <= len <= |T| && base + len / 4 < 0x1_0000_0000_0000_0000
    requires address + (len - ptr) / 4 < 0x1_0000_0000_0000_0000
  {
    var all := Chunks(base, T[..len]);
    && |S| == |T|
    && SentAs(mode, all, sent) && AllOk(sent) && (forall i :: 0 <= i < |sent| ==> |sent[i].rx| >= 4)
    && all[|sent|..] == Chunks(address, T[ptr..len])
    && (mode.SpiWrite? ==> S == T)
    && (mode.SpiRead? ==> S[..ptr] == Received(sent) && S[ptr..] == T[ptr..])
  }

  lemma ProgressStart(mode: Access, T: seq<byte>, base: uint64, len: nat)
    requires len <= |T| && base + len / 4 < 0x1_0000_0000_0000_0000
    ensures Progress(mode, T, base, len, base, 0, [], T)
  {
    hide Chunks;
    assert T[0..len] == T[..len];
  }

  lemma NextChunk(all: seq<Chunk>, k: nat, address: nat, d: seq<byte>, n: nat)
    requires k <= |all| && d != [] && address + |d| / 4 < 0x1_0000_0000_0000_0000
    requires all[k..] == Chunks(address, d)
    requires n == if |d| < SIZE_SPI_MSG_MAXLEN then |d| else SIZE_SPI_MSG_MAXLEN
    ensures k < |all| && all[k] == Chunk(address, d[..n]) && all[k + 1..] == Chunks(address + n / 4, d[n..])
  {
    hide Chunks;
    FirstChunk(address, d);
    assert all[k + 1..] == all[k..][1..];
  }

  lemma NoMoreThanAll(mode: Access, all: seq<Chunk>, sent: seq<Event>)
    requires SentAs(mode, all, sent)
    ensures |sent| <= |all|
  {
  }

  lemma SentSnoc(mode: Access, all: seq<Chunk>, sent: seq<Event>, e: Event)
    requires SentAs(mode, all, sent) && |sent| < |all| && |all[|sent|].data| <= SIZE_SPI_MSG_MAXLEN
    requires e.tx == Tx(mode, all[|sent|].address, all[|sent|].data)
    ensures SentAs(mode, all, sent + [e])
  {
    hide Tx;
  }

  lemma SplitSlice(T: seq<byte>, a: nat, b: nat, n: nat)
    requires a + n <= b <= |T|
    ensures T[a..b][..n] == T[a..a + n] && T[a..b][n..] == T[a + n..b]
  {
  }

  lemma ProgressStep(mode: Access, T: seq<byte>, base: uint64, len: nat, address: nat, ptr: nat,
                     sent: seq<Event>, S: seq<byte>, n: nat, e: Event, S': seq<byte>)
    requires ptr < len <= |T| && base + len / 4 < 0x1_0000_0000_0000_0000
    requires address + (len - ptr) / 4 < 0x1_0000_0000_0000_0000
    requires Progress(mode, T, base, len, address, ptr, sent, S)
    requires n == if len - ptr < SIZE_SPI_MSG_MAXLEN then len - ptr else SIZE_SPI_MSG_MAXLEN
    requires ptr + n <= |S| && e.tx == Tx(mode, address, S[ptr..ptr + n]) && |e.rx| == n + 4
    requires S' == if mode.SpiRead? && e.rc >= 0 then Splice(S, ptr, e.rx[4..]) else S
    ensures SentAs(mode, Chunks(base, T[..len]), sent + [e])
    ensures forall i :: 0 <= i < |sent + [e]| ==> |(sent + [e])[i].rx| >= 4
    ensures AllOk((sent + [e])[..|sent + [e]| - 1]) && (sent + [e])[|sent + [e]| - 1] == e
    ensures mode.SpiWrite? ==> S' == T
    ensures e.rc >= 0 ==> Progress(mode, T, base, len, address + n / 4, ptr + n, sent + [e], S')
  {
    hide Chunks, Tx, Received, AllOk, Splice, SentAs;
    var all, d := Chunks(base, T[..len]), T[ptr..len];
    NoMoreThanAll(mode, all, sent);
    NextChunk(all, |sent|, address, d, n);
    SplitSlice(T, ptr, len, n);
    SameTx(mode, address, S[ptr..ptr + n], d[..n]);
    SentSnoc(mode, all, sent, e);
    SnocParts(sent, e);
    ReceivedSnoc(sent, e);
    SplicedPrefix(S, T, ptr, e.rx[4..], n);
  }

  lemma ProgressEnd(mode: Access, T: seq<byte>, base: uint64, len: nat, address: nat, sent: seq<Event>, S: seq<byte>)
    requires len <= |T| && base + len / 4 < 0x1_0000_0000_0000_0000 && address < 0x1_0000_0000_0000_0000
    requires Progress(mode, T, base, len, address, len, sent, S)
    ensures SentAs(mode, Chunks(base, T[..len]), sent) && AllOk(sent) && |sent| == |Chunks(base, T[..len])|
    ensures forall i :: 0 <= i < |sent| ==> |sent[i].rx| >= 4
    ensures mode.SpiWrite? ==> S == T
    ensures |S| == |T| && (mode.SpiRead? ==> S[..len] == Received(sent) && S[len..] == T[len..])
  {
    hide Chunks;
    assert T[len..len] == [];
    NoChunks(address);
  }

  /** spi_send_long_packed_buf: the chunks are sent in order, each as one message; the first
      failure ends it, and exactly the chunks before it have then been sent. */
  method SendLongPackedBuf(spi: SpiSetup, mode: Access, baseAddr: uint64, buf: array<byte>, bufLen: nat)
    returns (rc: int, ghost sent: seq<Event>)
    requires bufLen <= buf.Length && bufLen < 0x8000_0000 && baseAddr + bufLen / 4 < 0x1_0000_0000_0000_0000
    modifies spi`replies, spi`events, buf
    ensures spi.events == old(spi.events) + sent
    ensures SentAs(mode, Chunks(baseAddr, old(buf[..bufLen])), sent)
    ensures rc >= 0 ==> |sent| == |Chunks(baseAddr, old(buf[..bufLen]))| && AllOk(sent)
    ensures rc < 0 ==> sent != [] && sent[|sent| - 1].rc == rc && AllOk(sent[..|sent| - 1])
    ensures forall i :: 0 <= i < |sent| ==> |sent[i].rx| >= 4
    ensures mode.SpiWrite? ==> buf[..] == old(buf[..])
    ensures mode.SpiRead? && rc >= 0 ==> buf[..bufLen] == Received(sent) && buf[bufLen..] == old(buf[bufLen..])
  {
    hide Chunks, Tx, SentAs, Splice, Received, AllOk, Progress;
    ghost var T: seq<byte>, before := buf[..], spi.events;
    assert buf[..bufLen] == T[..bufLen];
    var ptr: nat, address: nat := 0, baseAddr;
    var chunkLen := if bufLen < SIZE_SPI_MSG_MAXLEN then bufLen else SIZE_SPI_MSG_MAXLEN;
    rc, sent := 0, [];
    ProgressStart(mode, T, baseAddr, bufLen);
    while chunkLen != 0
      invariant ptr <= bufLen && address + (bufLen - ptr) / 4 < 0x1_0000_0000_0000_0000
      invariant chunkLen == if bufLen - ptr < SIZE_SPI_MSG_MAXLEN then bufLen - ptr else SIZE_SPI_MSG_MAXLEN
      invariant rc >= 0 && spi.events == before + sent
      invariant Progress(mode, T, baseAddr, bufLen, address, ptr, sent, buf[..])
      decreases bufLen - ptr
    {
      ghost var S: seq<byte> := buf[..];
      assert buf[ptr..ptr + chunkLen] == S[ptr..ptr + chunkLen];
      rc := spi.SendPackedBuf(mode, address, buf, ptr, chunkLen);
      ghost var e := spi.events[|before + sent|];
      NextEvent(before, sent, spi.events);
      ProgressStep(mode, T, baseAddr, bufLen, address, ptr, sent, S, chunkLen, e, buf[..]);
      sent := sent + [e];
      if rc < 0 { return; }
      ptr := ptr + chunkLen;
      address := address + chunkLen / 4;
      chunkLen := if bufLen - ptr < SIZE_SPI_MSG_MAXLEN then bufLen - ptr else SIZE_SPI_MSG_MAXLEN;
    }
    ProgressEnd(mode, T, baseAddr, bufLen, address, sent, buf[..]);
    assert buf[..bufLen] == buf[..][..bufLen];
    assert buf[bufLen..] == buf[..][bufLen..] && T[bufLen..] == old(buf[bufLen..]);
  }

  // ----- the memory of the device

  datatype Option<T> = None | Some(value: T)

  /** The device takes the transfer as a write of 32-bit words from an address on. */
  ghost predicate IsWrite(e: Event) {
    e.rc >= 0 && |e.tx| >= 4 && ReadMessage(e.tx[..4]).access == 1
  }

  ghost predicate Covers(e: Event, addr: nat) {
    IsWrite(e) &&
    var a := ReadMessage(e.tx[..4]).address;
    a <= addr && 4 * (addr - a) + 8 <= |e.tx|
  }

  ghost function WordIn(e: Event, addr: nat): seq<byte>
    requires Covers(e, addr)
  {
    var i := 4 + 4 * (addr - ReadMessage(e.tx[..4]).address);
    e.tx[i..i + 4]
  }

  /** The word that the transfers leave at an address, if they write it. */
  ghost function WordAt(es: seq<Event>, addr: nat): Option<seq<byte>> {
    if es == [] then None
    else
      var later := WordAt(es[1..], addr);
      if later.Some? then later
      else if Covers(es[0], addr) then Some(WordIn(es[0], addr))
      else None
  }

  lemma {:induction false} WordAtConcat(a: seq<Event>, b: seq<Event>, addr: nat)
    ensures WordAt(a + b, addr) == if WordAt(b, addr).Some? then WordAt(b, addr) else WordAt(a, addr)
    decreases |a|
  {
    hide Covers, WordIn;
    if a == [] {
      assert a + b == b;
    } else {
      assert (a + b)[1..] == a[1..] + b;
      WordAtConcat(a[1..], b, addr);
    }
  }

  lemma {:induction false} NotCovered(es: seq<Event>, addr: nat)
    requires forall i :: 0 <= i < |es| ==> !Covers(es[i], addr)
    ensures WordAt(es, addr).None?
    decreases |es|
  {
    hide Covers, WordIn;
    if es != [] { NotCovered(es[1..], addr); }
  }

  /** A chunk that was sent covers exactly its own words. */
  lemma ChunkCovers(c: Chunk, e: Event, addr: nat)
    requires e.rc >= 0 && |c.data| <= SIZE_SPI_MSG_MAXLEN && e.tx == Tx(SpiWrite, c.address, c.data)
    requires c.address < 0x20_0000
    ensures Covers(e, addr) <==> c.address <= addr && 4 * (addr - c.address) + 4 <= |c.data|
    ensures Covers(e, addr) ==> WordIn(e, addr) == c.data[4 * (addr - c.address)..4 * (addr - c.address) + 4]
  {
    hide ReadMessage, MessageBytes;
    WriteHeader(c.address, c.data);
    assert e.tx[4..] == c.data;
  }

  /** How many words the first n chunks of len bytes hold. */
  function WordsSent(n: nat, len: nat): nat {
    if 256 * n < len then 64 * n else len / 4
  }

  lemma WordsSentNext(n: nat, len: nat, first: nat)
    requires 0 < n && 0 < len && first == if len < SIZE_SPI_MSG_MAXLEN then len else SIZE_SPI_MSG_MAXLEN
    ensures WordsSent(n, len) == first / 4 + WordsSent(n - 1, len - first)
  {
  }

  /** While the chunks of a buffer are sent, the word at base + k is word k of the buffer, for
      every k within the chunks sent so far, and no other word is touched. */
  lemma {:induction false} MemoryAfterSome(base: nat, data: seq<byte>, es: seq<Event>, addr: nat)
    requires |data| % 4 == 0 && base + |data| / 4 <= 0x20_0000
    requires SentAs(SpiWrite, Chunks(base, data), es) && AllOk(es)
    ensures WordsSent(|es|, |data|) <= |data| / 4
    ensures WordAt(es, addr) ==
            if base <= addr < base + WordsSent(|es|, |data|)
            then Some(data[4 * (addr - base)..4 * (addr - base) + 4]) else None
    decreases |data|
  {
    hide Tx, Covers, WordIn, Chunks;
    if data == [] {
      NoChunks(base);
    } else if es != [] {
      var n := if |data| < SIZE_SPI_MSG_MAXLEN then |data| else SIZE_SPI_MSG_MAXLEN;
      FirstChunk(base, data);
      SentTail(Chunk(base, data[..n]), Chunks(base + n / 4, data[n..]), es);
      MemoryAfterSome(base + n / 4, data[n..], es[1..], addr);
      ChunkCovers(Chunk(base, data[..n]), es[0], addr);
      WordsSentNext(|es|, |data|, n);
      if base <= addr < base + |data| / 4 { ChunkWords(base, data, n, addr); }
    }
  }

  /** After all chunks of a buffer have been sent, the word at base + k is word k of the
      buffer, for every k, and no other word is touched. */
  lemma MemoryAfterChunks(base: nat, data: seq<byte>, es: seq<Event>, addr: nat)
    requires |data| % 4 == 0 && base + |data| / 4 <= 0x20_0000
    requires SentAs(SpiWrite, Chunks(base, data), es) && |es| == |Chunks(base, data)| && AllOk(es)
    ensures WordAt(es, addr) ==
            if base <= addr < base + |data| / 4 then Some(data[4 * (addr - base)..4 * (addr - base) + 4]) else None
  {
    hide Chunks, SentAs, AllOk, WordAt;
    ChunkCount(base, data);
    MemoryAfterSome(base, data, es, addr);
  }

  /** If a chunk fails, exactly the words of the chunks before it have been written. */
  lemma MemoryAfterFailure(base: nat, data: seq<byte>, es: seq<Event>, addr: nat)
    requires |data| % 4 == 0 && base + |data| / 4 <= 0x20_0000
    requires SentAs(SpiWrite, Chunks(base, data), es) && es != []
    requires es[|es| - 1].rc < 0 && AllOk(es[..|es| - 1])
    ensures 256 * (|es| - 1) < |data|
    ensures WordAt(es, addr) ==
            if base <= addr < base + 64 * (|es| - 1)
            then Some(data[4 * (addr - base)..4 * (addr - base) + 4]) else None
  {
    hide Chunks, AllOk, WordAt, Tx;
    var n := |es| - 1;
    ChunkCount(base, data);
    assert SentAs(SpiWrite, Chunks(base, data), es[..n]);
    MemoryAfterSome(base, data, es[..n], addr);
    NotCovered([es[n]], addr);
    WordAtConcat(es[..n], [es[n]], addr);
    assert es[..n] + [es[n]] == es;
  }

  lemma SentTail(c: Chunk, cs: seq<Chunk>, es: seq<Event>)
    requires SentAs(SpiWrite, [c] + cs, es) && es != [] && AllOk(es)
    ensures SentAs(SpiWrite, cs, es[1..]) && AllOk(es[1..])
    ensures |c.data| <= SIZE_SPI_MSG_MAXLEN && es[0].rc >= 0 && es[0].tx == Tx(SpiWrite, c.address, c.data)
  {
    hide Tx;
    var d := [c] + cs;
    assert d[0] == c;
    forall i | 0 <= i < |es[1..]|
      ensures |cs[i].data| <= SIZE_SPI_MSG_MAXLEN && es[1..][i].tx == Tx(SpiWrite, cs[i].address, cs[i].data)
    {
      assert d[i + 1] == cs[i] && es[1..][i] == es[i + 1];
    }
  }

  lemma ChunkWords(base: nat, data: seq<byte>, n: nat, addr: nat)
    requires |data| % 4 == 0 && n % 4 == 0 && n <= |data| && base <= addr < base + |data| / 4
    ensures addr < base + n / 4 ==>
              data[..n][4 * (addr - base)..4 * (addr - base) + 4] == data[4 * (addr - base)..4 * (addr - base) + 4]
    ensures base + n / 4 <= addr ==>
              var i := 4 * (addr - base - n / 4);
              data[n..][i..i + 4] == data[4 * (addr - base)..4 * (addr - base) + 4]
  {
  }
}
