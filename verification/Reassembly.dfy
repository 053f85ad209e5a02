/** A tag that asks for the parts of an image and stores each block at its place. */
module Reassembly {
  import opened Images
  import opened Options
  import opened Transfer
  import GoArith

  /** The number of parts of an image. */
  function Parts(len: nat, ibs: nat): nat
    requires ibs > 0
  {
    (len + ibs - 1) / ibs
  }

  /** The tag's request for a part. */
  function Request(link: Link, part: u32): Event {
    Notify(link, [0x05, 0x00] + LE32(part))
  }

  /** The part that a notification requests. */
  function Requested(e: Event): Option<u32> {
    if e.Notify? && Padded(e.data)[0] == 0x05 && Padded(e.data)[1] == 0x00 then
      var d := Padded(e.data);
      Some(FromLE32(d[2], d[3], d[4], d[5]))
    else None
  }

  lemma RequestIsFor(link: Link, part: u32)
    ensures Requested(Request(link, part)) == Some(part)
  {
    var data := [0x05, 0x00] + LE32(part);
    var d := Padded(data);
    assert d[0] == 0x05 && d[1] == 0x00;
    LE32RoundTrip(part);
    assert d[2] == LE32(part)[0] && d[3] == LE32(part)[1] && d[4] == LE32(part)[2] && d[5] == LE32(part)[3];
  }

  /** A request changes nothing, and is answered on the current connection with the block served, if any. */
  lemma Served(s: Radio, e: Event)
    requires Inv(s) && Requested(e).Some?
    ensures Handle(s, e).0 == s
    ensures Handle(s, e).1 == var b := BlockFor(s, Requested(e).value); if b.Some? then [Block(s.conn, b.value)] else []
  {
  }

  predicate IsAnnouncement(e: Event) {
    e.Notify? && Padded(e.data)[0] == 0x01
  }

  /** The block size that a notification announces, before the bridge clamps it. */
  function AnnouncedSize(e: Event): u16
    requires e.Notify?
  {
    Padded(e.data)[1] as int + 256 * (Padded(e.data)[2] as int)
  }

  // ----- the tag -----

  /**
   A tag: its connection to the bridge, the block size it announced, its memory for the image that was then
   declared, the parts received since, and the image on its panel.  `ram` is what its memory held before.
   */
  datatype Tag = Tag(link: Option<Link>, blockSize: nat, mem: seq<byte>, got: set<nat>, shown: Option<seq<byte>>,
                     ram: int -> byte)

  const IDLE_TAG := Tag(None, 0, [], {}, None, _ => 0)

  /** What the target of a push does: announcing a size starts over, completing shows the memory. */
  function Acts(t: Tag, push: nat, e: Event): Tag {
    match e
    case Connect(status, link) => if status == 0 && link.push == push then t.(link := Some(link)) else t
    case Disconnect(link) => if t.link == Some(link) then t.(link := None) else t
    case Notify(link, _) =>
      if link.push != push then t
      else if IsAnnouncement(e) then t.(blockSize := AnnouncedSize(e), mem := [], got := {})
      else if IsCompletion(e) then t.(shown := Some(t.mem))
      else t
    case _ => t
  }

  /** A declared image gets memory, with no part of it received yet. */
  function Declared(t: Tag, len: nat): Tag {
    t.(mem := seq<byte>(len, i => t.ram(i)), got := {})
  }

  /** A block is stored at its part number times the block's room, if it fits there. */
  function Stored(t: Tag, part: nat, data: seq<byte>): Tag {
    if t.blockSize <= 4 || part * (t.blockSize - 4) + |data| > |t.mem| then t
    else
      var at: nat := part * (t.blockSize - 4);
      t.(mem := t.mem[..at] + data + t.mem[at + |data|..], got := t.got + {part})
  }

  /** What the bridge sends on the tag's connection is a declaration, a block, or without effect on its memory. */
  function Receives(t: Tag, w: Sent): Tag {
    if t.link.None? then t
    else
      match w
      case Command(conn, bytes) =>
        if conn == t.link.value.handle && |bytes| >= 5 && bytes[0] == 0x02 then
          Declared(t, FromLE32(bytes[1], bytes[2], bytes[3], bytes[4]))
        else t
      case Block(conn, bytes) =>
        if conn == t.link.value.handle && |bytes| >= 4 then
          Stored(t, FromLE32(bytes[0], bytes[1], bytes[2], bytes[3]), bytes[4..])
        else t
      case _ => t
  }

  function ReceivesAll(t: Tag, sent: seq<Sent>): Tag
    decreases |sent|
  {
    if sent == [] then t else ReceivesAll(Receives(t, sent[0]), sent[1..])
  }

  lemma ReceivesOne(t: Tag, w: Sent)
    ensures ReceivesAll(t, [w]) == Receives(t, w)
  {
    assert [w][1..] == [];
  }

  /** One event, seen by the tag that the push targets and by the bridge, whose answer reaches the tag. */
  function TagNext(s: Radio, t: Tag, push: nat, e: Event): Tag
    requires Inv(s)
  {
    ReceivesAll(Acts(t, push, e), Handle(s, e).1)
  }

  function TagAfter(s: Radio, t: Tag, push: nat, es: seq<Event>): Tag
    requires Inv(s)
    decreases |es|
  {
    if es == [] then t else TagAfter(Next(s, es[0]), TagNext(s, t, push, es[0]), push, es[1..])
  }

  // ----- one part -----

  /** What the tag holds of the image: every byte of the parts it got. */
  ghost predicate Holds(t: Tag, img: seq<byte>) {
    t.blockSize > 4 && |t.mem| == |img| &&
    forall i | 0 <= i < |img| && i / (t.blockSize - 4) in t.got :: t.mem[i] == img[i]
  }

  /** The bridge serves an image by the tag's block size on the tag's connection, and the tag has room for it. */
  ghost predicate Serving(s: Radio, t: Tag) {
    && Inv(s) && s.img.Some? && s.blockSize == t.blockSize > 4 && |t.mem| == s.imgLen
    && t.link.Some? && s.conn == t.link.value.handle
  }

  /** One requested part: its stretch of the memory becomes the image's, and the rest stays. */
  lemma OnePart(s: Radio, t: Tag, push: nat, e: Event)
    requires Serving(s, t) && Requested(e).Some?
    ensures var part, ibs, t' := Requested(e).value, s.blockSize - 4, TagNext(s, t, push, e);
            && t' == t.(mem := t'.mem, got := t'.got) && |t'.mem| == |t.mem|
            && t'.got == (if part < Parts(s.imgLen, ibs) then t.got + {part} else t.got)
            && forall i | 0 <= i < |t.mem| :: t'.mem[i] == if i / ibs == part then s.img.value[i] else t.mem[i]
  {
    Served(s, e);
    var part, ibs := Requested(e).value, s.blockSize - 4;
    var b := BlockFor(s, part);
    if b.Some? {
      ReceivesOne(t, Block(s.conn, b.value));
      BlockInBounds(s, part);
      LE32RoundTrip(part);
      assert b.value[..4][0] == b.value[0] && b.value[..4][1] == b.value[1];
      assert b.value[..4][2] == b.value[2] && b.value[..4][3] == b.value[3];
      StoredAt(s, t, part);
    }
    PartStart(part, ibs, s.imgLen);
    forall i | 0 <= i < |t.mem| && part >= Parts(s.imgLen, ibs)
      ensures i / ibs != part
    {
      Covered(i, ibs, |t.mem|);
    }
  }

  lemma StoredAt(s: Radio, t: Tag, part: u32)
    requires Serving(s, t) && BlockFor(s, part).Some?
    requires var b := BlockFor(s, part).value; FromLE32(b[0], b[1], b[2], b[3]) == part
    ensures var ibs, t' := s.blockSize - 4, Receives(t, Block(s.conn, BlockFor(s, part).value));
            && t' == t.(mem := t'.mem, got := t'.got) && |t'.mem| == |t.mem|
            && t'.got == (if part < Parts(s.imgLen, ibs) then t.got + {part} else t.got)
            && (part < Parts(s.imgLen, ibs) ==>
                  forall i | 0 <= i < |t.mem| :: t'.mem[i] == if i / ibs == part then s.img.value[i] else t.mem[i])
            && (part >= Parts(s.imgLen, ibs) ==> t' == t)
  {
    var ibs, img, at := s.blockSize - 4, s.img.value, part * (s.blockSize - 4);
    PartStart(part, ibs, |img|);
    if part < Parts(|img|, ibs) {
      var n := if |img| - at < ibs then |img| - at else ibs;
      assert BlockFor(s, part) == Some(LE32(part) + img[at..at + n]);
      var mem' := t.mem[..at] + img[at..at + n] + t.mem[at + n..];
      assert Receives(t, Block(s.conn, BlockFor(s, part).value)).mem == mem';
      forall i | 0 <= i < |t.mem|
        ensures mem'[i] == if i / ibs == part then img[i] else t.mem[i]
      {
        Belongs(i, part, ibs);
      }
    }
  }

  /** A part starts inside the image exactly if it is one of its parts. */
  lemma PartStart(part: nat, ibs: nat, len: nat)
    requires ibs > 0 && len < U32
    ensures part < Parts(len, ibs) ==> part * ibs < len && (part * ibs) % U32 == part * ibs
    ensures part >= Parts(len, ibs) ==> part * ibs >= len
  {
    var n := Parts(len, ibs);
    Rounded(len + ibs - 1, ibs);
    GoArith.Scaled(part + 1, n, ibs);
    GoArith.Scaled(n, part, ibs);
    Distributes(part, ibs);
    Distributes(n, ibs);
    SmallModulo(part * ibs);
  }

  lemma Distributes(a: nat, b: nat)
    ensures (a + 1) * b == a * b + b
  {
  }

  lemma Rounded(n: nat, d: nat)
    requires d > 0
    ensures (n / d) * d <= n < (n / d) * d + d
  {
  }

  lemma Belongs(i: nat, part: nat, ibs: nat)
    requires ibs > 0
    ensures i / ibs == part <==> part * ibs <= i < part * ibs + ibs
  {
    Rounded(i, ibs);
    if part * ibs <= i < part * ibs + ibs {
      GoArith.Quotient(i, ibs, part);
    }
  }

  lemma Covered(i: nat, ibs: nat, len: nat)
    requires ibs > 0 && i < len
    ensures 0 <= i / ibs < Parts(len, ibs)
  {
    var q, n := i / ibs, Parts(len, ibs);
    Rounded(i, ibs);
    Rounded(len + ibs - 1, ibs);
    GoArith.Scaled(n, q, ibs);
  }

  /** A tag that got every part holds the image. */
  ghost predicate GotAll(t: Tag)
    requires t.blockSize > 4
  {
    forall p: nat | p < Parts(|t.mem|, t.blockSize - 4) :: p in t.got
  }

  lemma AllIsImage(t: Tag, img: seq<byte>)
    requires Holds(t, img) && GotAll(t)
    ensures t.mem == img
  {
    forall i | 0 <= i < |img|
      ensures t.mem[i] == img[i]
    {
      Covered(i, t.blockSize - 4, |t.mem|);
    }
  }

  // ----- fetching an image -----

  /** Neither an announcement nor anything that could end the transfer. */
  predicate Steady(e: Event) {
    (e.Notify? && !IsAnnouncement(e)) || e.Discovered? || e.ScanComplete?
  }

  ghost predicate Requests(es: seq<Event>, part: nat) {
    exists e | e in es :: Requested(e) == Some(part)
  }

  lemma SteadyStep(s: Radio, t: Tag, push: nat, e: Event)
    requires Serving(s, t) && s.found && Holds(t, s.img.value) && Steady(e)
    ensures var s', t' := Next(s, e), TagNext(s, t, push, e);
            && Serving(s', t') && s'.found && s'.img == s.img && t'.blockSize == t.blockSize && Holds(t', s.img.value)
            && t'.got == if Requested(e).Some? && Requested(e).value < Parts(s.imgLen, s.blockSize - 4)
                         then t.got + {Requested(e).value} else t.got
  {
    if Requested(e).Some? {
      Served(s, e);
      OnePart(s, t, push, e);
    } else {
      OtherNotify(s, t, push, e);
    }
  }

  lemma OtherNotify(s: Radio, t: Tag, push: nat, e: Event)
    requires Serving(s, t) && s.found && Steady(e) && Requested(e).None?
    ensures Next(s, e) == s || Next(s, e) == s.(ok := true)
    ensures TagNext(s, t, push, e) == t || TagNext(s, t, push, e) == t.(shown := Some(t.mem))
  {
    var sent := Handle(s, e).1;
    if sent != [] {
      assert sent == [sent[0]];
      ReceivesOne(Acts(t, push, e), sent[0]);
    }
  }

  /**
   Through any steady events the tag gets exactly the parts it had and those requested, and holds the image
   on all of them.
   */
  lemma {:induction false} RequestedArrive(s: Radio, t: Tag, push: nat, es: seq<Event>)
    requires Serving(s, t) && s.found && Holds(t, s.img.value)
    requires forall e | e in es :: Steady(e)
    ensures var t' := TagAfter(s, t, push, es);
            && Holds(t', s.img.value) && t'.blockSize == t.blockSize
            && forall p: nat :: p in t'.got <==>
                 p in t.got || (p < Parts(s.imgLen, s.blockSize - 4) && Requests(es, p))
    decreases |es|
  {
    if es != [] {
      assert es[0] in es && forall e :: e in es <==> e == es[0] || e in es[1..];
      SteadyStep(s, t, push, es[0]);
      RequestedArrive(Next(s, es[0]), TagNext(s, t, push, es[0]), push, es[1..]);
      forall p: nat
        ensures Requests(es, p) <==> Requested(es[0]) == Some(p) || Requests(es[1..], p)
      {
      }
    }
  }

  /**
   Reassembly: for any image and any announced block size from 5 to 520, a tag that has been declared the
   image holds exactly that image after any events among which every part is requested, in any order, with
   repeats, and with whatever notifications in between, as long as no event ends the transfer and no size is
   announced anew.
   */
  lemma ImageArrives(s: Radio, t: Tag, push: nat, es: seq<Event>)
    requires Serving(s, t) && s.found && t.got == {}
    requires forall e | e in es :: Steady(e)
    requires forall p: nat | p < Parts(s.imgLen, s.blockSize - 4) :: Requests(es, p)
    ensures TagAfter(s, t, push, es).mem == s.img.value
  {
    RequestedArrive(s, t, push, es);
    AllIsImage(TagAfter(s, t, push, es), s.img.value);
  }

  // ----- what success says about the tag -----

  /** The tag reports completion only of a declared image all of whose parts it got; the sizes it announces fit. */
  ghost predicate CarefulNow(t: Tag, push: nat, e: Event) {
    e.Notify? && e.link.push == push ==>
      && (IsAnnouncement(e) ==> AnnouncedSize(e) <= BUF)
      && (IsCompletion(e) ==> t.mem != [] && t.blockSize > 4 && GotAll(t))
  }

  ghost predicate Careful(s: Radio, t: Tag, push: nat, es: seq<Event>)
    requires Inv(s)
    decreases |es|
  {
    es == [] || (CarefulNow(t, push, es[0]) && Careful(Next(s, es[0]), TagNext(s, t, push, es[0]), push, es[1..]))
  }

  /** The bridge serves these bits, if any, and what the tag was declared and got are these bits too. */
  ghost predicate Sound(s: Radio, t: Tag, bits: seq<byte>) {
    && Inv(s) && 0 < |bits| < U32 && (s.img.Some? ==> s.img.value == bits)
    && (t.mem != [] ==> s.blockSize == t.blockSize && |t.mem| == |bits|)
    && (t.mem != [] && t.blockSize > 4 ==> Holds(t, bits))
  }

  /** A notification, if it is one, comes from the tag that the push targets. */
  predicate FromOwn(e: Event, push: nat) {
    e.Notify? ==> e.link.push == push
  }

  lemma AnnouncementSound(s: Radio, t: Tag, push: nat, e: Event, bits: seq<byte>)
    requires Sound(s, t, bits) && CarefulNow(t, push, e) && FromOwn(e, push) && e.Notify? && IsAnnouncement(e)
    ensures Sound(Next(s, e), TagNext(s, t, push, e), bits) && TagNext(s, t, push, e).shown == t.shown
  {
    var w := Handle(s, e).1[0];
    var t1 := Acts(t, push, e);
    assert Handle(s, e).1 == [w];
    ReceivesOne(t1, w);
    LE32RoundTrip(s.imgLen);
    assert w.bytes[1..5] == LE32(s.imgLen);
    assert w.bytes[1] == LE32(s.imgLen)[0] && w.bytes[2] == LE32(s.imgLen)[1];
    assert w.bytes[3] == LE32(s.imgLen)[2] && w.bytes[4] == LE32(s.imgLen)[3];
  }

  /** The tag hears what is sent on the current connection, and has been declared an image. */
  predicate Fetching(s: Radio, t: Tag) {
    t.mem != [] && t.blockSize > 4 && t.link.Some? && s.conn == t.link.value.handle
  }

  lemma RequestSound(s: Radio, t: Tag, push: nat, e: Event, bits: seq<byte>)
    requires Sound(s, t, bits) && Requested(e).Some?
    ensures Sound(Next(s, e), TagNext(s, t, push, e), bits) && TagNext(s, t, push, e).shown == t.shown
  {
    Served(s, e);
    if s.img.Some? && Fetching(s, t) {
      OnePart(s, t, push, e);
    } else {
      RequestUnheard(s, t, push, e);
    }
  }

  lemma RequestUnheard(s: Radio, t: Tag, push: nat, e: Event)
    requires Inv(s) && Requested(e).Some? && (s.img.None? || !Fetching(s, t))
    ensures TagNext(s, t, push, e) == t
  {
    Served(s, e);
    var b := BlockFor(s, Requested(e).value);
    if b.Some? {
      ReceivesOne(t, Block(s.conn, b.value));
      BlockInBounds(s, Requested(e).value);
      if t.mem == [] {
        NothingStored(t, FromLE32(b.value[0], b.value[1], b.value[2], b.value[3]), b.value[4..]);
      }
    }
  }

  lemma NothingStored(t: Tag, part: nat, data: seq<byte>)
    requires t.mem == [] && data != []
    ensures Stored(t, part, data) == t
  {
  }

  lemma OtherSound(s: Radio, t: Tag, push: nat, e: Event, bits: seq<byte>)
    requires Sound(s, t, bits) && CarefulNow(t, push, e) && FromOwn(e, push)
    requires Requested(e).None? && !IsAnnouncement(e)
    ensures var t' := TagNext(s, t, push, e);
            Sound(Next(s, e), t', bits) && t'.shown == if IsCompletion(e) then Some(bits) else t.shown
  {
    OtherHeard(s, Acts(t, push, e), e);
    if IsCompletion(e) {
      AllIsImage(t, bits);
    }
  }

  lemma OtherHeard(s: Radio, t: Tag, e: Event)
    requires Inv(s) && Requested(e).None? && !IsAnnouncement(e)
    ensures ReceivesAll(t, Handle(s, e).1) == t
  {
    var sent := Handle(s, e).1;
    if |sent| == 2 {
      assert sent == [sent[0], sent[1]] && sent[1..] == [sent[1]];
      ReceivesOne(t, sent[1]);
    } else if sent != [] {
      assert sent == [sent[0]];
      ReceivesOne(t, sent[0]);
    }
  }

  lemma {:induction false} SoundStays(s: Radio, t: Tag, push: nat, es: seq<Event>, bits: seq<byte>)
    requires Sound(s, t, bits) && Careful(s, t, push, es)
    requires forall e | e in es :: FromOwn(e, push)
    ensures Sound(AfterEvents(s, es), TagAfter(s, t, push, es), bits)
    ensures TagAfter(s, t, push, es).shown == if exists e | e in es :: IsCompletion(e) then Some(bits) else t.shown
    decreases |es|
  {
    if es != [] {
      assert es[0] in es && forall e :: e in es <==> e == es[0] || e in es[1..];
      var s1, t1 := Next(s, es[0]), TagNext(s, t, push, es[0]);
      if Requested(es[0]).Some? {
        RequestSound(s, t, push, es[0], bits);
      } else if IsAnnouncement(es[0]) {
        AnnouncementSound(s, t, push, es[0], bits);
      } else {
        OtherSound(s, t, push, es[0], bits);
      }
      SoundStays(s1, t1, push, es[1..], bits);
    }
  }

  /**
   Success means that the tag shows the image: whatever happens during the wait of a push and after it,
   watchdog, disconnections and repeated announcements included, as long as notifications come from its own
   tag and that tag is careful, a push that reports success after n of the events leaves on the tag's panel
   exactly the bits pushed.
   */
  lemma OkMeansShown(s0: Radio, p: Setup, push: nat, t: Tag, es: seq<Event>, n: nat)
    requires Inv(s0) && |p.bits| < U32 && Begin(s0, p).1 && Inv(Begin(s0, p).0) && n <= |es|
    requires t.mem == [] && Careful(Begin(s0, p).0, t, push, es)
    requires forall e | e in es :: FromOwn(e, push)
    ensures ReportsOk(AfterEvents(Begin(s0, p).0, es[..n])) ==>
              TagAfter(Begin(s0, p).0, t, push, es).shown == Some(p.bits)
  {
    PushReport(s0, p, es[..n]);
    assert forall e | e in es[..n] :: e in es;
    SoundStays(Begin(s0, p).0, t, push, es, p.bits);
  }

  // ----- a whole dialogue -----

  /** The tag's answer to the block size question. */
  function Announce(link: Link, bs: u16): Event {
    Notify(link, [0x01, bs % 256, bs / 256])
  }

  lemma Announced(s: Radio, link: Link, bs: u16)
    requires Inv(s) && bs <= BUF
    ensures IsAnnouncement(Announce(link, bs)) && AnnouncedSize(Announce(link, bs)) == bs
    ensures Handle(s, Announce(link, bs))
         == (s.(blockSize := bs), [Command(s.conn, [0x02] + LE32(s.imgLen) + [0, 0, 0])])
  {
    var d := Padded([0x01, bs % 256, bs / 256]);
    assert d[0] == 0x01 && d[1] == bs % 256 && d[2] == bs / 256;
  }

  /** The tag is found, connects and announces its block size. */
  function Hello(target: seq<byte>, link: Link, bs: u16): seq<Event> {
    [Discovered(target, true, true), Connect(0, link), Announce(link, bs)]
  }

  /** The tag after that: the image is declared, no part of it received. */
  function Greeted(t: Tag, link: Link, bs: u16, len: nat): Tag {
    Declared(t.(link := Some(link), blockSize := bs), len)
  }

  /** The bridge's state once the tag has been found, connected to and has announced its block size. */
  function Linked(p: Setup, s0: Radio, link: Link, bs: u16): Radio
    requires p.target.Some?
  {
    Radio(Some(p.bits), |p.bits|, true, false, true, link.handle, bs, p.target.value, s0.allocs + 1, s0.frees)
  }

  /** What the bridge sends meanwhile, up to declaring the image's length. */
  function Greeting(p: Setup, link: Link): seq<Sent>
    requires p.target.Some? && |p.bits| < U32
  {
    [CancelScan, Dial(p.target.value), ExchangeMtu(link.handle),
     Command(link.handle, [0x02] + LE32(|p.bits|) + [0, 0, 0])]
  }

  /** Everything the bridge sends while it handles a list of events. */
  function SentBy(s: Radio, es: seq<Event>): seq<Sent>
    requires Inv(s)
    decreases |es|
  {
    if es == [] then [] else Handle(s, es[0]).1 + SentBy(Next(s, es[0]), es[1..])
  }

  lemma FirstOf(s: Radio, e: Event, rest: seq<Event>)
    requires Inv(s)
    ensures AfterEvents(s, [e] + rest) == AfterEvents(Next(s, e), rest)
    ensures SentBy(s, [e] + rest) == Handle(s, e).1 + SentBy(Next(s, e), rest)
  {
    assert ([e] + rest)[1..] == rest;
  }

  lemma FirstSeen(s: Radio, t: Tag, push: nat, e: Event, rest: seq<Event>)
    requires Inv(s)
    ensures TagAfter(s, t, push, [e] + rest) == TagAfter(Next(s, e), TagNext(s, t, push, e), push, rest)
  {
    assert ([e] + rest)[1..] == rest;
  }

  /** The three steps of the greeting, as the bridge and the tag see them. */
  lemma HelloSteps(s0: Radio, p: Setup, link: Link, bs: u16, t: Tag)
    requires Inv(s0) && |p.bits| < U32 && Begin(s0, p).1 && bs <= BUF && Inv(Begin(s0, p).0)
    ensures var s, es := Begin(s0, p).0, Hello(p.target.value, link, bs);
            var s1, t1 := Next(s, es[0]), TagNext(s, t, link.push, es[0]);
            var s2, t2 := Next(s1, es[1]), TagNext(s1, t1, link.push, es[1]);
            && Handle(s, es[0]).1 + Handle(s1, es[1]).1 + Handle(s2, es[2]).1 == Greeting(p, link)
            && Next(s2, es[2]) == Linked(p, s0, link, bs)
            && TagNext(s2, t2, link.push, es[2]) == Greeted(t, link, bs, |p.bits|)
  {
    var s, es := Begin(s0, p).0, Hello(p.target.value, link, bs);
    OtherHeard(s, t, es[0]);
    var s1 := Next(s, es[0]);
    assert s1 == s.(found := true) && TagNext(s, t, link.push, es[0]) == t;
    OtherHeard(s1, t.(link := Some(link)), es[1]);
    var s2, t2 := Next(s1, es[1]), t.(link := Some(link));
    assert s2 == s1.(conn := link.handle) && TagNext(s1, t, link.push, es[1]) == t2;
    Announced(s2, link, bs);
    DeclaredTo(s2, t2, link, bs);
  }

  lemma DeclaredTo(s: Radio, t: Tag, link: Link, bs: u16)
    requires Inv(s) && bs <= BUF && t.link == Some(link) && s.conn == link.handle
    ensures TagNext(s, t, link.push, Announce(link, bs)) == Greeted(t, link, bs, s.imgLen)
  {
    Announced(s, link, bs);
    var w := Command(s.conn, [0x02] + LE32(s.imgLen) + [0, 0, 0]);
    ReceivesOne(t.(blockSize := bs, mem := [], got := {}), w);
    LE32RoundTrip(s.imgLen);
    assert w.bytes[1..5] == LE32(s.imgLen);
    assert w.bytes[1] == LE32(s.imgLen)[0] && w.bytes[2] == LE32(s.imgLen)[1];
    assert w.bytes[3] == LE32(s.imgLen)[2] && w.bytes[4] == LE32(s.imgLen)[3];
  }

  lemma InTurn(s: Radio, t: Tag, push: nat, es: seq<Event>, rest: seq<Event>)
    requires Inv(s) && |es| == 3
    ensures var s1, t1 := Next(s, es[0]), TagNext(s, t, push, es[0]);
            var s2, t2 := Next(s1, es[1]), TagNext(s1, t1, push, es[1]);
            var s3, t3 := Next(s2, es[2]), TagNext(s2, t2, push, es[2]);
            && AfterEvents(s, es + rest) == AfterEvents(s3, rest)
            && SentBy(s, es + rest)
               == Handle(s, es[0]).1 + Handle(s1, es[1]).1 + Handle(s2, es[2]).1 + SentBy(s3, rest)
            && TagAfter(s, t, push, es + rest) == TagAfter(s3, t3, push, rest)
  {
    var s1, t1 := Next(s, es[0]), TagNext(s, t, push, es[0]);
    var s2, t2 := Next(s1, es[1]), TagNext(s1, t1, push, es[1]);
    var rest2 := [es[2]] + rest;
    var rest1 := [es[1]] + rest2;
    assert es + rest == [es[0]] + rest1;
    FirstOf(s, es[0], rest1);
    FirstOf(s1, es[1], rest2);
    FirstOf(s2, es[2], rest);
    FirstSeen(s, t, push, es[0], rest1);
    FirstSeen(s1, t1, push, es[1], rest2);
    FirstSeen(s2, t2, push, es[2], rest);
    Regroup3(Handle(s, es[0]).1, Handle(s1, es[1]).1, Handle(s2, es[2]).1, SentBy(Next(s2, es[2]), rest));
  }

  lemma Regroup3(a: seq<Sent>, b: seq<Sent>, c: seq<Sent>, d: seq<Sent>)
    ensures a + (b + (c + d)) == a + b + c + d
  {
  }

  lemma LinkUp(s0: Radio, p: Setup, link: Link, bs: u16, t: Tag, rest: seq<Event>)
    requires Inv(s0) && |p.bits| < U32 && Begin(s0, p).1 && bs <= BUF && Inv(Begin(s0, p).0)
    ensures var s, es, s' := Begin(s0, p).0, Hello(p.target.value, link, bs), Linked(p, s0, link, bs);
            && Inv(s')
            && AfterEvents(s, es + rest) == AfterEvents(s', rest)
            && SentBy(s, es + rest) == Greeting(p, link) + SentBy(s', rest)
            && TagAfter(s, t, link.push, es + rest)
               == TagAfter(s', Greeted(t, link, bs, |p.bits|), link.push, rest)
  {
    InTurn(Begin(s0, p).0, t, link.push, Hello(p.target.value, link, bs), rest);
    HelloSteps(s0, p, link, bs, t);
  }

  /**
   A whole transfer, from `ble_push` on: once the tag is found, connected and has announced a block size
   from 5 to 520, the bridge has declared the image's length, and after any steady events in which all parts
   are requested the tag holds exactly the bits that were pushed, whatever its memory held before.
   */
  lemma PushedBitsArrive(s0: Radio, p: Setup, link: Link, bs: u16, t: Tag, es: seq<Event>)
    requires Inv(s0) && |p.bits| < U32 && Begin(s0, p).1 && Inv(Begin(s0, p).0) && 5 <= bs <= BUF
    requires forall e | e in es :: Steady(e)
    requires forall part: nat | part < Parts(|p.bits|, bs - 4) :: Requests(es, part)
    ensures var s, all := Begin(s0, p).0, Hello(p.target.value, link, bs) + es;
            && Greeting(p, link) <= SentBy(s, all)
            && TagAfter(s, t, link.push, all).mem == p.bits
  {
    LinkUp(s0, p, link, bs, t, es);
    ImageArrives(Linked(p, s0, link, bs), Greeted(t, link, bs, |p.bits|), link.push, es);
  }

  /** The tag's requests for a list of parts. */
  function RequestsFor(link: Link, parts: seq<u32>): seq<Event> {
    if parts == [] then [] else [Request(link, parts[0])] + RequestsFor(link, parts[1..])
  }

  /** The tag accepts the image, asks for parts, reports completion and is disconnected. */
  function Exchange(link: Link, parts: seq<u32>): seq<Event> {
    [Notify(link, [0x02, 0x00])] + (RequestsFor(link, parts) + [Notify(link, [0x05, 0x08]), Disconnect(link)])
  }

  /** The blocks served for a list of parts. */
  function Blocks(s: Radio, parts: seq<u32>): seq<Sent>
    requires Inv(s)
  {
    if parts == [] then []
    else
      var b := BlockFor(s, parts[0]);
      (if b.Some? then [Block(s.conn, b.value)] else []) + Blocks(s, parts[1..])
  }

  lemma {:induction false} RequestsServed(s: Radio, link: Link, parts: seq<u32>, rest: seq<Event>)
    requires Inv(s)
    ensures AfterEvents(s, RequestsFor(link, parts) + rest) == AfterEvents(s, rest)
    ensures SentBy(s, RequestsFor(link, parts) + rest) == Blocks(s, parts) + SentBy(s, rest)
    decreases |parts|
  {
    if parts == [] {
      assert RequestsFor(link, parts) + rest == rest;
    } else {
      var e, more := Request(link, parts[0]), RequestsFor(link, parts[1..]) + rest;
      assert RequestsFor(link, parts) + rest == [e] + more;
      FirstOf(s, e, more);
      RequestIsFor(link, parts[0]);
      Served(s, e);
      RequestsServed(s, link, parts[1..], rest);
      Regroup(Handle(s, e).1, Blocks(s, parts[1..]), SentBy(s, rest));
    }
  }

  lemma Regroup(a: seq<Sent>, b: seq<Sent>, c: seq<Sent>)
    ensures a + (b + c) == (a + b) + c
  {
  }

  lemma WindUp(s: Radio, link: Link)
    requires Inv(s) && s.pushing
    ensures AfterEvents(s, [Notify(link, [0x05, 0x08]), Disconnect(link)]) == Cleanup(s.(ok := true))
    ensures SentBy(s, [Notify(link, [0x05, 0x08]), Disconnect(link)]) == [Terminate(s.conn)]
  {
    var e, last := Notify(link, [0x05, 0x08]), Disconnect(link);
    var d := Padded([0x05, 0x08]);
    assert d[0] == 0x05 && d[1] == 0x08;
    FirstOf(s, e, [last]);
    FirstOf(Next(s, e), last, []);
    assert [e] + [last] == [e, last] && [last] + [] == [last];
  }

  /**
   The whole dialogue: the bridge connects to the tag it found, declares the image, starts the transfer when
   the tag accepts, answers each request in turn, closes that connection on completion and does nothing
   else, and reports success with the image freed.
   */
  lemma DialogueSucceeds(s0: Radio, p: Setup, link: Link, bs: u16, parts: seq<u32>)
    requires Inv(s0) && |p.bits| < U32 && Begin(s0, p).1 && bs <= BUF && Inv(Begin(s0, p).0)
    ensures var s, es := Begin(s0, p).0, Hello(p.target.value, link, bs) + Exchange(link, parts);
            var end := AfterEvents(s, es);
            && ReportsOk(end) && end.img.None? && end.allocs == end.frees
            && Inv(Linked(p, s0, link, bs))
            && SentBy(s, es) == Greeting(p, link) +
                 ([Command(link.handle, [0x03])] +
                  (Blocks(Linked(p, s0, link, bs), parts) + [Terminate(link.handle)]))
  {
    LinkUp(s0, p, link, bs, IDLE_TAG, Exchange(link, parts));
    AcceptedAndServed(Linked(p, s0, link, bs), link, parts);
  }

  lemma AcceptedAndServed(s: Radio, link: Link, parts: seq<u32>)
    requires Inv(s) && s.pushing
    ensures AfterEvents(s, Exchange(link, parts)) == Cleanup(s.(ok := true))
    ensures SentBy(s, Exchange(link, parts))
         == [Command(s.conn, [0x03])] + (Blocks(s, parts) + [Terminate(s.conn)])
  {
    var accept, ending := Notify(link, [0x02, 0x00]), [Notify(link, [0x05, 0x08]), Disconnect(link)];
    var d := Padded([0x02, 0x00]);
    assert d[0] == 0x02 && d[1] == 0x00;
    assert Handle(s, accept) == (s, [Command(s.conn, [0x03])]);
    FirstOf(s, accept, RequestsFor(link, parts) + ending);
    RequestsServed(s, link, parts, ending);
    WindUp(s, link);
  }

  lemma {:induction false} SilentUntilAnnounced(s: Radio, es: seq<Event>)
    requires Inv(s) && s.blockSize == 0
    requires forall e | e in es :: !IsAnnouncement(e)
    ensures forall w | w in SentBy(s, es) :: !w.Block?
    decreases |es|
  {
    if es != [] {
      assert es[0] in es && forall e | e in es[1..] :: e in es;
      SilentNow(s, es[0]);
      SilentUntilAnnounced(Next(s, es[0]), es[1..]);
    }
  }

  lemma SilentNow(s: Radio, e: Event)
    requires Inv(s) && s.blockSize == 0 && !IsAnnouncement(e)
    ensures Next(s, e).blockSize == 0 && forall w | w in Handle(s, e).1 :: !w.Block?
  {
  }

  /** No push serves a block by the size announced in an earlier one: each waits for its own announcement. */
  lemma BlocksAwaitAnnouncement(s0: Radio, p: Setup, es: seq<Event>)
    requires Inv(s0) && |p.bits| < U32 && Begin(s0, p).1 && Inv(Begin(s0, p).0)
    requires forall e | e in es :: !IsAnnouncement(e)
    ensures forall w | w in SentBy(Begin(s0, p).0, es) :: !w.Block?
  {
    SilentUntilAnnounced(Begin(s0, p).0, es);
  }
}
