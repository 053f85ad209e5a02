/** The bridge's BLE transfer: global state changed by callbacks that may come in any order, late ones included. */
module Transfer {
  import opened Images
  import opened Options

  const U32: int := 0x1_0000_0000
  const BUF: nat := 520
  const CONN_NONE: int := 0xFFFF

  type u16 = n: int | 0 <= n < 0x1_0000
  type u32 = n: int | 0 <= n < 0x1_0000_0000

  // ----- little-endian numbers -----

  function LE32(n: u32): seq<byte> {
    [n % 256, (n / 256) % 256, (n / 0x1_0000) % 256, n / 0x100_0000]
  }

  function FromLE32(a: byte, b: byte, c: byte, d: byte): u32 {
    a + 256 * b + 0x1_0000 * c + 0x100_0000 * d
  }

  /** A part number survives being encoded by one side and decoded by the other. */
  lemma LE32RoundTrip(n: u32)
    ensures var e := LE32(n); FromLE32(e[0], e[1], e[2], e[3]) == n
  {
    assert n == (n % 256) + 256 * (n / 256);
    assert n / 256 == ((n / 256) % 256) + 256 * (n / 0x1_0000);
    assert n / 0x1_0000 == ((n / 0x1_0000) % 256) + 256 * (n / 0x100_0000);
  }

  /** Least significant byte first, in plain numbers: what is written, ... */
  lemma LittleEndian(n: u32)
    ensures |LE32(n)| == 4
    ensures var b0: int, b1: int, b2: int, b3: int := LE32(n)[0], LE32(n)[1], LE32(n)[2], LE32(n)[3];
            b0 + 256 * b1 + 0x1_0000 * b2 + 0x100_0000 * b3 == n
  {
    LE32RoundTrip(n);
  }

  /** ... and what is read, which is written back as the same bytes. */
  lemma LittleEndianRead(a: byte, b: byte, c: byte, d: byte)
    ensures var n: int := FromLE32(a, b, c, d);
            n == (a as int) + 256 * (b as int) + 0x1_0000 * (c as int) + 0x100_0000 * (d as int)
    ensures LE32(FromLE32(a, b, c, d)) == [a, b, c, d]
  {
    Bytes(FromLE32(a, b, c, d), a, b, c, d);
  }

  lemma Bytes(n: u32, a: int, b: int, c: int, d: int)
    requires 0 <= a < 256 && 0 <= b < 256 && 0 <= c < 256 && 0 <= d < 256
    requires n == a + 256 * (b + 256 * (c + 256 * d))
    ensures LE32(n) == [a, b, c, d]
  {
    var n1 := b + 256 * (c + 256 * d);
    var n2 := c + 256 * d;
    assert n % 256 == a && n / 256 == n1;
    assert n1 % 256 == b && n1 / 256 == n2 == n / 0x1_0000;
    assert n2 % 256 == c && n2 / 256 == d == n / 0x100_0000;
  }

  // ----- state -----

  /** The image buffer is None when it is not allocated; `allocs` and `frees` count malloc and free. */
  datatype Radio = Radio(
    img: Option<seq<byte>>, imgLen: nat, pushing: bool, ok: bool, found: bool,
    conn: int, blockSize: u16, target: seq<byte>, allocs: nat, frees: nat)

  const IDLE := Radio(None, 0, false, false, false, CONN_NONE, 0, [], 0, 0)

  /**
   What the callbacks ask of the radio: a command on the request characteristic of a connection, a block on
   its image one, closing a connection, ending the scan, connecting to an address, exchanging the MTU.
   */
  datatype Sent =
    | Command(conn: int, bytes: seq<byte>)
    | Block(conn: int, bytes: seq<byte>)
    | Terminate(handle: int)
    | CancelScan
    | Dial(addr: seq<byte>)
    | ExchangeMtu(handle: int)

  /** A connection: its handle, which is all that the callbacks see of it, and the push whose dial opened it. */
  datatype Link = Link(push: nat, handle: u16)

  /** A GAP event or timer, with what the library calls made while handling it return. */
  datatype Event =
    | Connect(status: int, link: Link)
    | Disconnect(link: Link)
    | Notify(link: Link, data: seq<byte>)
    | Watchdog
    | Discovered(addr: seq<byte>, inferOk: bool, connectOk: bool)
    | ScanComplete

  function Cleanup(s: Radio): Radio {
    s.(img := None, imgLen := 0, pushing := false, found := false, conn := CONN_NONE,
       frees := s.frees + (if s.img.Some? then 1 else 0))
  }

  /** The block served for a part, if any: the image from `part * ibs` on, in 32-bit arithmetic, clamped twice. */
  function BlockFor(s: Radio, part: u32): Option<seq<byte>>
    requires s.img.Some? ==> s.imgLen == |s.img.value|
    requires s.img.None? ==> s.imgLen == 0
  {
    if s.blockSize <= 4 then None
    else
      var ibs := s.blockSize - 4;
      var off := (part * ibs) % U32;
      if off >= s.imgLen then None
      else
        var rem := s.imgLen - off;
        var n0 := if rem < ibs then rem else ibs;
        var n := if n0 + 4 > BUF then BUF - 4 else n0;
        Some(LE32(part) + s.img.value[off..off + n])
  }

  /** The first eight bytes of a notification, zero-padded. */
  function Padded(data: seq<byte>): (d: seq<byte>)
    ensures |d| == 8
  {
    seq(8, i requires 0 <= i < 8 => if i < |data| then data[i] else 0)
  }

  predicate IsCompletion(e: Event) {
    e.Notify? && Padded(e.data)[0] == 0x05 && Padded(e.data)[1] == 0x08
  }

  function OnNotify(s: Radio, data: seq<byte>): (Radio, seq<Sent>)
    requires Inv(s)
  {
    var d := Padded(data);
    if d[0] == 0x01 then
      var size: u16 := d[1] as int + 256 * (d[2] as int);
      (s.(blockSize := if size > BUF then BUF else size), [Command(s.conn, [0x02] + LE32(s.imgLen) + [0, 0, 0])])
    else if d[0] == 0x02 then
      (s, if d[1] == 0x00 then [Command(s.conn, [0x03])] else [])
    else if d[0] == 0x05 && d[1] == 0x00 then
      var b := BlockFor(s, FromLE32(d[2], d[3], d[4], d[5]));
      (s, if b.Some? then [Block(s.conn, b.value)] else [])
    else if d[0] == 0x05 && d[1] == 0x08 then
      (s.(ok := true), [Terminate(s.conn)])
    else (s, [])
  }

  function Handle(s: Radio, e: Event): (Radio, seq<Sent>)
    requires Inv(s)
  {
    match e
    case Connect(status, link) =>
      if status != 0 then (Cleanup(s), []) else (s.(conn := link.handle), [ExchangeMtu(link.handle)])
    case Disconnect(_) => (Cleanup(s), [])
    case Notify(_, data) => OnNotify(s, data)
    case Watchdog =>
      if s.pushing then (Cleanup(s), [if s.conn != CONN_NONE then Terminate(s.conn) else CancelScan]) else (s, [])
    case Discovered(addr, inferOk, connectOk) =>
      if s.pushing && !s.found && addr == s.target then
        var s' := s.(found := true);
        (if inferOk && connectOk then s' else Cleanup(s'), if inferOk then [CancelScan, Dial(addr)] else [CancelScan])
      else (s, [])
    case ScanComplete => (if s.pushing && !s.found then Cleanup(s) else s, [])
  }

  /** The arguments of a push and what the library calls made while setting it up return. */
  datatype Setup = Setup(ready: bool, target: Option<seq<byte>>, bits: seq<byte>,
                         mallocOk: bool, inferOk: bool, scanOk: bool)

  /** A push with its copy of the image, before the scan. */
  function Armed(s: Radio, p: Setup): Radio
    requires p.target.Some?
  {
    Radio(Some(p.bits), |p.bits|, true, false, false, CONN_NONE, 0, p.target.value, s.allocs + 1, s.frees)
  }

  /** `ble_push` up to its wait loop; the second result says whether it gets there. */
  function Begin(s: Radio, p: Setup): (Radio, bool)
    requires |p.bits| < U32
  {
    if !p.ready || s.pushing || p.bits == [] || p.target.None? || !p.mallocOk then (s, false)
    else
      var s' := Armed(s, p);
      if p.inferOk && p.scanOk then (s', true) else (Cleanup(s'), false)
  }

  /**
   Who owns the image.  A push is in flight exactly when the image is allocated, exactly when its length is
   positive; a found tag means a push in flight; the announced block fits the buffer; and every allocation
   but the one in flight has been freed, once.
   */
  ghost predicate Inv(s: Radio) {
    && (s.pushing <==> s.img.Some?)
    && (s.img.Some? <==> s.imgLen > 0)
    && (s.img.Some? ==> s.imgLen == |s.img.value| && s.imgLen < U32)
    && (s.found ==> s.pushing)
    && s.blockSize <= BUF
    && s.allocs == s.frees + (if s.pushing then 1 else 0)
  }

  /** Every callback keeps the ownership invariant, and everything it sends fits the 520-byte buffer. */
  lemma HandleKeeps(s: Radio, e: Event)
    requires Inv(s)
    ensures Inv(Handle(s, e).0)
    ensures forall w | w in Handle(s, e).1 && (w.Command? || w.Block?) :: |w.bytes| <= BUF
  {
    if e.Notify? {
      var d := Padded(e.data);
      var part := FromLE32(d[2], d[3], d[4], d[5]);
      if BlockFor(s, part).Some? {
        BlockInBounds(s, part);
      }
    }
  }

  function Next(s: Radio, e: Event): (s': Radio)
    requires Inv(s)
    ensures Inv(s')
  {
    HandleKeeps(s, e);
    Handle(s, e).0
  }

  lemma BeginKeeps(s: Radio, p: Setup)
    requires Inv(s) && |p.bits| < U32
    ensures Inv(Begin(s, p).0)
  {
  }

  // ----- blocks -----

  /** Each block is its part number and a non-empty stretch of the image, even when `part * ibs` wraps. */
  lemma BlockInBounds(s: Radio, part: u32)
    requires Inv(s) && BlockFor(s, part).Some?
    ensures var b := BlockFor(s, part).value;
            var off, n := (part * (s.blockSize - 4)) % U32, |b| - 4;
            && 1 <= n <= BUF - 4 && off + n <= |s.img.value|
            && b[..4] == LE32(part) && b[4..] == s.img.value[off..off + n]
  {
  }

  /** The block a part stands for: the image from `part * ibs`, or nothing past its end. */
  function Meant(img: seq<byte>, ibs: nat, part: nat): Option<seq<byte>>
    requires ibs > 0
  {
    var off := part * ibs;
    if off >= |img| then None else Some(img[off..if off + ibs < |img| then off + ibs else |img|])
  }

  /**
   The bridge serves what the part number means exactly when the 32-bit offset does not wrap, or wraps past
   the end of the image; otherwise it serves an earlier stretch of the image for a part that has none.
   */
  lemma ServedAsMeant(s: Radio, part: u32)
    requires Inv(s) && s.img.Some? && s.blockSize > 4
    ensures var ibs := s.blockSize - 4;
            var served, meant := BlockFor(s, part), Meant(s.img.value, ibs, part);
            (served == if meant.Some? then Some(LE32(part) + meant.value) else None)
            <==> (part * ibs < U32 || (part * ibs) % U32 >= s.imgLen)
  {
    var ibs := s.blockSize - 4;
    var off := part * ibs;
    if off < U32 {
      SmallModulo(off);
    } else {
      assert off >= s.imgLen && Meant(s.img.value, ibs, part).None?;
    }
  }

  /** Part 2^30 of an image sent in blocks of size 8 has no bytes, but the bridge answers with the first four. */
  lemma WrapServesStart(s: Radio)
    requires Inv(s) && s.blockSize == 8 && s.imgLen >= 4
    ensures Meant(s.img.value, 4, 0x4000_0000) == None
    ensures BlockFor(s, 0x4000_0000) == Some(LE32(0x4000_0000) + s.img.value[0..4])
  {
  }

  lemma SmallModulo(off: nat)
    ensures off < U32 ==> off % U32 == off
  {
  }

  // ----- the protocol in plain bytes -----

  /** The k-th byte of a notification, 0 where it is shorter. */
  function ByteOf(data: seq<byte>, k: nat): byte {
    if k < |data| then data[k] else 0
  }

  /** Block size: it is taken over, at most 520, and the image's length declared, low byte first. */
  lemma AnnouncementAnswered(s: Radio, data: seq<byte>)
    requires Inv(s) && ByteOf(data, 0) == 1
    ensures var (s', sent) := OnNotify(s, data);
            var low: int, high: int := ByteOf(data, 1), ByteOf(data, 2);
            var size := low + 256 * high;
            && s' == s.(blockSize := s'.blockSize) && s'.blockSize == (if size > 520 then 520 else size)
            && |sent| == 1 && sent[0].Command? && sent[0].conn == s.conn && |sent[0].bytes| == 8
            && var c := sent[0].bytes;
               var b0: int, b1: int, b2: int, b3: int := c[1], c[2], c[3], c[4];
               && c[0] == 2 && b0 + 256 * b1 + 0x1_0000 * b2 + 0x100_0000 * b3 == s.imgLen
               && c[5] == c[6] == c[7] == 0
  {
    Announces(s, data);
    Declares(s.imgLen);
  }

  lemma Announces(s: Radio, data: seq<byte>)
    requires Inv(s) && ByteOf(data, 0) == 1
    ensures var low: int, high: int := ByteOf(data, 1), ByteOf(data, 2);
            var size := low + 256 * high;
            && OnNotify(s, data).0 == s.(blockSize := if size > 520 then 520 else size)
            && OnNotify(s, data).1 == [Command(s.conn, [0x02] + LE32(s.imgLen) + [0, 0, 0])]
  {
    var d := Padded(data);
    assert d[0] == ByteOf(data, 0) && d[1] == ByteOf(data, 1) && d[2] == ByteOf(data, 2);
  }

  lemma Declares(len: u32)
    ensures var c := [0x02] + LE32(len) + [0, 0, 0];
            var b0: int, b1: int, b2: int, b3: int := c[1], c[2], c[3], c[4];
            && |c| == 8 && c[0] == 2 && c[5] == c[6] == c[7] == 0
            && b0 + 256 * b1 + 0x1_0000 * b2 + 0x100_0000 * b3 == len
  {
    LittleEndian(len);
    var n := LE32(len);
    Framed(n);
    var c := [0x02] + n + [0, 0, 0];
    assert c[1] == n[0] && c[2] == n[1] && c[3] == n[2] && c[4] == n[3];
  }

  lemma Framed(n: seq<byte>)
    requires |n| == 4
    ensures [0x02] + n + [0, 0, 0] == [2, n[0], n[1], n[2], n[3], 0, 0, 0]
  {
  }

  lemma BlockMeans(s: Radio, part: u32, off: int)
    requires Inv(s) && off == (part * (s.blockSize - 4)) % 0x1_0000_0000
    ensures var ibs := s.blockSize - 4;
            BlockFor(s, part) ==
              if ibs <= 0 || off >= s.imgLen then None
              else Some(LE32(part) + s.img.value[off..off + if s.imgLen - off < ibs then s.imgLen - off else ibs])
  {
  }

  /**
   A request for part p, low byte first: nothing is served of an image shorter than `p * ibs`, with 32-bit
   wrap-around, where `ibs` is the block size less 4; else the same four bytes and the image from there on, as
   far as the block or the image goes.
   */
  lemma RequestAnswered(s: Radio, data: seq<byte>)
    requires Inv(s) && ByteOf(data, 0) == 5 && ByteOf(data, 1) == 0
    ensures var b0: int, b1: int, b2: int, b3: int
              := ByteOf(data, 2), ByteOf(data, 3), ByteOf(data, 4), ByteOf(data, 5);
            var part, ibs := b0 + 256 * b1 + 0x1_0000 * b2 + 0x100_0000 * b3, s.blockSize - 4;
            var off := (part * ibs) % 0x1_0000_0000;
            var (s', sent) := OnNotify(s, data);
            && s' == s
            && if ibs <= 0 || off >= s.imgLen then sent == []
               else
                 var n := if s.imgLen - off < ibs then s.imgLen - off else ibs;
                 sent == [Block(s.conn, [ByteOf(data, 2), ByteOf(data, 3), ByteOf(data, 4), ByteOf(data, 5)]
                                        + s.img.value[off..off + n])]
  {
    var d := Padded(data);
    LittleEndianRead(d[2], d[3], d[4], d[5]);
    assert d[2] == ByteOf(data, 2) && d[3] == ByteOf(data, 3) && d[4] == ByteOf(data, 4) && d[5] == ByteOf(data, 5);
    var part := FromLE32(d[2], d[3], d[4], d[5]);
    BlockMeans(s, part, (part * (s.blockSize - 4)) % 0x1_0000_0000);
  }

  /** The remaining notifications: the tag accepts, reports completion, or says something else. */
  lemma OthersAnswered(s: Radio, data: seq<byte>)
    requires Inv(s)
    ensures var (s', sent) := OnNotify(s, data);
            && (ByteOf(data, 0) == 2 ==> s' == s && sent == if ByteOf(data, 1) == 0 then [Command(s.conn, [3])] else [])
            && (ByteOf(data, 0) == 5 && ByteOf(data, 1) == 8 ==> s' == s.(ok := true) && sent == [Terminate(s.conn)])
            && (ByteOf(data, 0) == 5 && ByteOf(data, 1) !in {0, 8} ==> s' == s && sent == [])
            && (ByteOf(data, 0) !in {1, 2, 5} ==> s' == s && sent == [])
  {
  }

  /** A push is over: nothing is allocated, found or connected; the outcome, once known, stays. */
  predicate Ended(s: Radio, s': Radio) {
    && !s'.pushing && s'.img.None? && s'.imgLen == 0 && !s'.found && s'.conn == 0xFFFF
    && s'.ok == s.ok && s'.blockSize == s.blockSize && s'.target == s.target
    && s'.allocs == s.allocs && s'.frees == if s.img.Some? then s.frees + 1 else s.frees
  }

  /** What ends a push, in each phase: no push whose scan, dial or connection has come to nothing stays in flight. */
  lemma WhatEndsPush(s: Radio, e: Event)
    requires Inv(s)
    ensures e.ScanComplete? ==>
              if s.pushing && !s.found then Ended(s, Next(s, e)) else Next(s, e) == s
    ensures e.ScanComplete? ==> Handle(s, e).1 == []
    ensures e.Watchdog? && s.pushing ==>
              Ended(s, Next(s, e)) && Handle(s, e).1 == [if s.conn == 0xFFFF then CancelScan else Terminate(s.conn)]
    ensures e.Watchdog? && !s.pushing ==> Next(s, e) == s && Handle(s, e).1 == []
    ensures e.Disconnect? || (e.Connect? && e.status != 0) ==> Ended(s, Next(s, e)) && Handle(s, e).1 == []
    ensures e.Connect? && e.status == 0 ==>
              Next(s, e) == s.(conn := e.link.handle) && Handle(s, e).1 == [ExchangeMtu(e.link.handle)]
  {
  }

  /** A sighting of the target ends the scan and is dialled; if that cannot be done the push is over. */
  lemma WhatIsDialled(s: Radio, e: Event)
    requires Inv(s) && e.Discovered?
    ensures !s.pushing || s.found || e.addr != s.target ==> Next(s, e) == s && Handle(s, e).1 == []
    ensures s.pushing && !s.found && e.addr == s.target ==>
              && (e.inferOk && e.connectOk ==> Next(s, e) == s.(found := true))
              && (!e.inferOk || !e.connectOk ==> Ended(s, Next(s, e)))
              && Handle(s, e).1 == if e.inferOk then [CancelScan, Dial(e.addr)] else [CancelScan]
  {
  }

  /** A push starts exactly when nothing stands against it, with a copy of the image and nothing left of others. */
  lemma WhatStarts(s: Radio, p: Setup)
    requires Inv(s) && |p.bits| < U32
    ensures var (s', waits) := Begin(s, p);
            var allowed := p.ready && !s.pushing && p.bits != [] && p.target.Some? && p.mallocOk;
            && (waits <==> allowed && p.inferOk && p.scanOk)
            && (waits ==> && s'.pushing && s'.img == Some(p.bits) && s'.imgLen == |p.bits| && !s'.ok && !s'.found
                          && s'.conn == 0xFFFF && s'.blockSize == 0 && s'.target == p.target.value
                          && s'.allocs == s.allocs + 1 && s'.frees == s.frees)
            && (!allowed ==> s' == s)
            && (allowed && !waits ==> && !s'.pushing && s'.img.None? && !s'.ok && s'.conn == 0xFFFF
                                      && s'.allocs == s.allocs + 1 && s'.frees == s.frees + 1)
  {
  }

  // ----- every history of pushes and events -----

  datatype Action = Push(p: Setup) | Happens(e: Event)

  predicate Sized(a: Action) {
    a.Push? ==> |a.p.bits| < U32
  }

  function Act(s: Radio, a: Action): (Radio, seq<Sent>)
    requires Inv(s) && Sized(a)
  {
    match a
    case Push(p) => (Begin(s, p).0, [])
    case Happens(e) => Handle(s, e)
  }

  /** The state after a history, late and unexpected events included. */
  ghost function Reached(acts: seq<Action>): (s: Radio)
    requires forall a | a in acts :: Sized(a)
    ensures Inv(s)
    decreases |acts|
  {
    if acts == [] then IDLE
    else
      var last := acts[|acts| - 1];
      assert last in acts;
      var s := Reached(acts[..|acts| - 1]);
      ActKeeps(s, last);
      Act(s, last).0
  }

  lemma ActKeeps(s: Radio, a: Action)
    requires Inv(s) && Sized(a)
    ensures Inv(Act(s, a).0)
  {
    match a {
      case Push(p) => BeginKeeps(s, p);
      case Happens(e) => HandleKeeps(s, e);
    }
  }

  /** The images handed to `ble_push` in a history. */
  ghost predicate WasPushed(acts: seq<Action>, bits: seq<byte>) {
    exists a | a in acts :: a.Push? && a.p.bits == bits
  }

  lemma {:induction false} ImageWasPushed(acts: seq<Action>)
    requires forall a | a in acts :: Sized(a)
    ensures Reached(acts).img.Some? ==> WasPushed(acts, Reached(acts).img.value)
    decreases |acts|
  {
    if acts != [] {
      var earlier, last := acts[..|acts| - 1], acts[|acts| - 1];
      ImageWasPushed(earlier);
      assert last in acts && forall a | a in earlier :: a in acts;
      var s := Reached(earlier);
      if Reached(acts).img.Some? && s.img == Reached(acts).img {
        var a :| a in earlier && a.Push? && a.p.bits == s.img.value;
        assert a in acts;
      }
    }
  }

  predicate StretchAt(img: seq<byte>, off: int, part: seq<byte>) {
    0 <= off && off + |part| <= |img| && part == img[off..off + |part|]
  }

  /**
   Over every history: exactly the push in flight owns an image, an allocated image is one that was pushed,
   and every block sent next is at most 520 bytes and carries a stretch of that image.
   */
  lemma OwnershipAndBounds(acts: seq<Action>, e: Event)
    requires forall a | a in acts :: Sized(a)
    ensures var s := Reached(acts);
            && (s.pushing <==> s.img.Some?) && (s.pushing <==> s.imgLen > 0) && (s.found ==> s.pushing)
            && s.allocs - s.frees == (if s.pushing then 1 else 0)
            && s.blockSize <= BUF
            && (s.img.Some? ==> WasPushed(acts, s.img.value))
            && forall w | w in Handle(s, e).1 && (w.Command? || w.Block?) ::
                 && |w.bytes| <= BUF
                 && (w.Block? ==> s.img.Some? && |w.bytes| > 4 &&
                                  exists off :: StretchAt(s.img.value, off, w.bytes[4..]))
  {
    var s := Reached(acts);
    ImageWasPushed(acts);
    HandleKeeps(s, e);
    if e.Notify? {
      var d := Padded(e.data);
      var part := FromLE32(d[2], d[3], d[4], d[5]);
      var b := BlockFor(s, part);
      if b.Some? {
        BlockInBounds(s, part);
        assert StretchAt(s.img.value, (part * (s.blockSize - 4)) % U32, b.value[4..]);
      }
    }
  }

  // ----- what a push reports -----

  function AfterEvents(s: Radio, es: seq<Event>): Radio
    requires Inv(s)
    decreases |es|
  {
    if es == [] then s else AfterEvents(Next(s, es[0]), es[1..])
  }

  lemma OneEvent(s: Radio, e: Event)
    requires Inv(s)
    ensures AfterEvents(s, [e]) == Next(s, e)
  {
    assert [e][1..] == [];
  }

  lemma {:induction false} AfterMore(s: Radio, es: seq<Event>, more: seq<Event>)
    requires Inv(s)
    ensures Inv(AfterEvents(s, es))
    ensures AfterEvents(s, es + more) == AfterEvents(AfterEvents(s, es), more)
    decreases |es|
  {
    if es == [] {
      assert es + more == more;
    } else {
      assert (es + more)[1..] == es[1..] + more;
      AfterMore(Next(s, es[0]), es[1..], more);
    }
  }

  /** What `ble_push` returns when its wait ends. */
  predicate ReportsOk(s: Radio) {
    !s.pushing && s.ok
  }

  lemma {:induction false} OkMeansCompletion(s: Radio, es: seq<Event>)
    requires Inv(s)
    ensures Inv(AfterEvents(s, es))
    ensures AfterEvents(s, es).ok <==> s.ok || exists e | e in es :: IsCompletion(e)
    decreases |es|
  {
    if es != [] {
      var s1 := Next(s, es[0]);
      OkMeansCompletion(s1, es[1..]);
      assert s1.ok <==> s.ok || IsCompletion(es[0]);
      assert forall e :: e in es <==> e == es[0] || e in es[1..];
    }
  }

  /**
   A push that reached its wait reports success exactly when the transfer was cleaned up and a completion
   notification came since its setup.
   */
  lemma PushReport(s: Radio, p: Setup, es: seq<Event>)
    requires Inv(s) && |p.bits| < U32 && Begin(s, p).1
    ensures Inv(Begin(s, p).0)
    ensures var s' := AfterEvents(Begin(s, p).0, es);
            ReportsOk(s') <==> !s'.pushing && exists e | e in es :: IsCompletion(e)
  {
    BeginKeeps(s, p);
    OkMeansCompletion(Begin(s, p).0, es);
  }
}
