/** The bridge's global state and callbacks, each proved to do what `Transfer` says of its value. */
module Bridge {
  import opened Images
  import opened Options
  import opened Transfer

  const POLLS: nat := 760

  class Bridge {
    var img: array?<byte>
    var imgLen: nat
    var pushing: bool
    var ok: bool
    var found: bool
    var conn: int
    var blockSize: u16
    var target: seq<byte>
    const blockbuf: array<byte>
    ghost var allocs: nat
    ghost var frees: nat

    ghost function Value(): Radio
      reads this, img
    {
      Radio(if img == null then None else Some(img[..]), imgLen, pushing, ok, found, conn, blockSize, target,
            allocs, frees)
    }

    ghost predicate Valid()
      reads this, img
    {
      blockbuf.Length == BUF && img != blockbuf && Inv(Value())
    }

    constructor ()
      ensures Valid() && Value() == IDLE && fresh(blockbuf)
    {
      img, imgLen, pushing, ok, found, conn, blockSize, target := null, 0, false, false, false, CONN_NONE, 0, [];
      blockbuf := new byte[BUF](_ => 0);
      allocs, frees := 0, 0;
    }

    method PushCleanup()
      modifies this
      ensures Value() == Cleanup(old(Value())) && Ended(old(Value()), Value())
      ensures img == null
    {
      if img != null {
        img := null;
        frees := frees + 1;
      }
      imgLen := 0;
      pushing := false;
      found := false;
      conn := CONN_NONE;
    }

    /** Builds the block in the 520-byte buffer, header first, then the copied stretch of the image. */
    method SendBlock(part: u32) returns (sent: seq<Sent>)
      requires Valid()
      modifies blockbuf
      ensures Valid() && Value() == old(Value())
      ensures sent == var b := BlockFor(Value(), part); if b.Some? then [Block(conn, b.value)] else []
    {
      if blockSize <= 4 {
        return [];
      }
      var ibs := blockSize - 4;
      var off := (part * ibs) % U32;
      if off >= imgLen {
        return [];
      }
      var rem := imgLen - off;
      var n := if rem < ibs then rem else ibs;
      if n + 4 > BUF {
        n := BUF - 4;
      }
      Fill(part, off, n);
      sent := [Block(conn, blockbuf[..n + 4])];
    }

    method Fill(part: u32, off: nat, n: nat)
      requires Valid() && img != null && off + n <= img.Length && n + 4 <= BUF
      modifies blockbuf
      ensures Valid() && Value() == old(Value())
      ensures blockbuf[..n + 4] == LE32(part) + img[off..off + n]
    {
      var head := LE32(part);
      blockbuf[0], blockbuf[1], blockbuf[2], blockbuf[3] := head[0], head[1], head[2], head[3];
      for k := 0 to n
        invariant blockbuf[..4] == head && blockbuf[4..4 + k] == img[off..off + k]
        invariant img[..] == old(img[..])
      {
        blockbuf[4 + k] := img[off + k];
        assert blockbuf[4..4 + k] == img[off..off + k];
      }
      assert blockbuf[..n + 4] == blockbuf[..4] + blockbuf[4..4 + n];
    }

    method NotifyRx(data: seq<byte>) returns (sent: seq<Sent>)
      requires Valid()
      modifies this, blockbuf
      ensures Valid() && (Value(), sent) == OnNotify(old(Value()), data)
      ensures img == old(img)
    {
      var d := Padded(data);
      sent := [];
      if d[0] == 0x01 {
        var size: u16 := d[1] as int + 256 * (d[2] as int);
        blockSize := if size > BUF then BUF else size;
        sent := [Command(conn, [0x02] + LE32(imgLen) + [0, 0, 0])];
      } else if d[0] == 0x02 {
        if d[1] == 0x00 {
          sent := [Command(conn, [0x03])];
        }
      } else if d[0] == 0x05 {
        if d[1] == 0x00 {
          sent := SendBlock(FromLE32(d[2], d[3], d[4], d[5]));
        } else if d[1] == 0x08 {
          ok := true;
          sent := [Terminate(conn)];
        }
      }
    }

    /** Dispatch of one event to its callback. */
    method Callback(e: Event) returns (sent: seq<Sent>)
      requires Valid()
      modifies this, blockbuf
      ensures Valid() && (Value(), sent) == Handle(old(Value()), e)
      ensures img == null || img == old(img)
    {
      HandleKeeps(Value(), e);
      sent := [];
      match e {
        case Connect(status, link) =>
          if status != 0 {
            PushCleanup();
          } else {
            conn := link.handle;
            sent := [ExchangeMtu(conn)];
          }
        case Disconnect(_) =>
          PushCleanup();
        case Notify(_, data) =>
          sent := NotifyRx(data);
        case Watchdog =>
          if pushing {
            sent := [if conn != CONN_NONE then Terminate(conn) else CancelScan];
            PushCleanup();
          }
        case Discovered(addr, inferOk, connectOk) =>
          if pushing && !found && addr == target {
            found := true;
            sent := [CancelScan];
            if !inferOk {
              PushCleanup();
            } else {
              sent := [CancelScan, Dial(addr)];
              if !connectOk {
                PushCleanup();
              }
            }
          }
        case ScanComplete =>
          if pushing && !found {
            PushCleanup();
          }
      }
    }

    method Copied(bits: seq<byte>) returns (a: array<byte>)
      ensures fresh(a) && a[..] == bits
    {
      a := new byte[|bits|](k requires 0 <= k < |bits| => bits[k]);
    }

    /** Sets the globals for a push, with a copy of the image. */
    method Arm(p: Setup)
      requires p.target.Some? && blockbuf.Length == BUF
      modifies this
      ensures Value() == Armed(old(Value()), p) && fresh(img) && img != blockbuf
    {
      img := Copied(p.bits);
      allocs := allocs + 1;
      imgLen := |p.bits|;
      target := p.target.value;
      pushing, ok, found, conn, blockSize := true, false, false, CONN_NONE, 0;
    }

    /** `ble_push` up to its wait. */
    method Start(p: Setup) returns (waiting: bool)
      requires Valid() && |p.bits| < U32
      modifies this
      ensures Valid() && (Value(), waiting) == Begin(old(Value()), p)
      ensures img == null || img == old(img) || fresh(img)
    {
      BeginKeeps(Value(), p);
      if !p.ready || pushing || |p.bits| == 0 || p.target.None? || !p.mallocOk {
        return false;
      }
      Arm(p);
      if !p.inferOk || !p.scanOk {
        PushCleanup();
        return false;
      }
      waiting := true;
    }

    /**
     The whole push.  `polls[i]` are the events handled during the i-th 50 ms of the wait, which ends when a
     callback has cleared `pushing`, or after 760 polls, and not before: n polls were waited for.  It reports
     success exactly when it got to wait, the transfer was cleaned up in time, and a completion notification
     was among the events of the wait.
     */
    method BlePush(p: Setup, polls: seq<seq<Event>>)
      returns (success: bool, ghost n: nat, ghost seen: seq<Event>)
      requires Valid() && |p.bits| < U32 && |polls| == POLLS
      modifies this, blockbuf
      ensures Valid()
      ensures Inv(Begin(old(Value()), p).0) && Waited(Begin(old(Value()), p).0, polls, n, seen, Value())
      ensures if Begin(old(Value()), p).1 then pushing ==> n == 760 else n == 0
      ensures success <==> Begin(old(Value()), p).1 && ReportsOk(Value())
      ensures success <==> Begin(old(Value()), p).1 && !pushing && exists e | e in seen :: IsCompletion(e)
    {
      BeginKeeps(Value(), p);
      n, seen := 0, [];
      ghost var before := Value();
      var waiting := Start(p);
      if !waiting {
        return false, n, seen;
      }
      ghost var start := Value();
      var i := 0;
      while i < POLLS && pushing
        invariant 0 <= i == n <= POLLS && Valid() && (img == null || img == old(img) || fresh(img))
        invariant Waited(start, polls, n, seen, Value())
        decreases POLLS - i
      {
        ghost var now := Value();
        ghost var more := Poll(polls[i]);
        WaitedOnce(start, polls, n, seen, now);
        seen := seen + polls[i];
        i, n := i + 1, n + 1;
      }
      PushReport(before, p, seen);
      success := !pushing && ok;
    }

    method Poll(es: seq<Event>) returns (ghost sent: seq<Sent>)
      requires Valid()
      modifies this, blockbuf
      ensures Valid() && Value() == AfterEvents(old(Value()), es)
      ensures img == null || img == old(img)
    {
      sent := [];
      for k := 0 to |es|
        invariant Valid() && (img == null || img == old(img))
        invariant Value() == AfterEvents(old(Value()), es[..k])
      {
        ghost var before := Value();
        var now := Callback(es[k]);
        sent := sent + now;
        AfterMore(old(Value()), es[..k], [es[k]]);
        OneEvent(before, es[k]);
        assert es[..k + 1] == es[..k] + [es[k]];
      }
      assert es[..|es|] == es;
    }
  }

  /** The push is still in flight after the events of the first k polls. */
  ghost predicate StillPushing(start: Radio, polls: seq<seq<Event>>, k: nat)
    requires Inv(start) && k <= |polls|
  {
    AfterEvents(start, Flat(polls[..k])).pushing
  }

  /** The events of n polls lead to the current state, the push having been in flight before each of them. */
  ghost predicate Waited(start: Radio, polls: seq<seq<Event>>, n: nat, seen: seq<Event>, now: Radio)
    requires Inv(start)
  {
    && n <= |polls| && seen == Flat(polls[..n]) && now == AfterEvents(start, seen)
    && forall k | 0 <= k < n :: StillPushing(start, polls, k)
  }

  lemma WaitedOnce(start: Radio, polls: seq<seq<Event>>, n: nat, seen: seq<Event>, now: Radio)
    requires Inv(start) && n < |polls| && Waited(start, polls, n, seen, now) && now.pushing
    ensures Inv(now) && Waited(start, polls, n + 1, seen + polls[n], AfterEvents(now, polls[n]))
  {
    assert StillPushing(start, polls, n);
    AfterMore(start, seen, polls[n]);
    assert polls[..n + 1][..n] == polls[..n];
  }

  ghost function Flat(polls: seq<seq<Event>>): seq<Event> {
    if polls == [] then [] else Flat(polls[..|polls| - 1]) + polls[|polls| - 1]
  }
}
