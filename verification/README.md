# Model of the inktags service and its bridge

inktags keeps cheap BLE e-ink shelf tags showing the name and price that a shop's catalog lists. A
service draws a face for each bound tag, encodes it for the panel and queues a push; a bridge transfers
the bytes to the tag over BLE; a poller notices catalog changes and queues the tags again. This project
models each of these stages and proves that they fit together: the tag ends up showing what the store
says.

## Structure

| files | what they model |
|---|---|
| `Images`, `Panel` | image buffers and their values; fitting the face to the panel, the 2:1 reshape, rotation |
| `Packing`, `Encoder`, `EncoderLaws` | bit packing, the two encoders, the decoder, and the laws that relate them |
| `PriceText`, `LineWrap`, `WrapLaws` | price text, word splitting, greedy wrapping with ellipsis, optimality |
| `PushQueues`, `QueueRuns` | the coalescing queue as an object, and all interleavings of its worker and enqueuers |
| `Catalog`, `Server`, `ShopRuns` | the cache, the handlers as methods, and the whole service as a system of steps |
| `Rebinding` | saving a new binding while a catalog change is being reconciled |
| `Clover`, `Polling` | retries and pagination; the poller's loop, its overlap window and what it brings to the rows |
| `Transfer`, `Bridge`, `Connections` | the bridge's callbacks as a state machine and as an object; the connections their events come from |
| `Reassembly`, `TagHistory` | a tag that fetches the image part by part; one tag followed through everything a bridge does |
| `Freshness`, `EndToEnd` | from the catalog to the last delivery, and the product's claim, composed from the parts |
| `Options`, `GoArith` | an option type; Go's truncating `/` and `%`, int64 negation and powers of two |

Code that fills buffers or updates fields is a method or a class here, proved equal to a function of its
inputs or of the object's earlier value; the promises are lemmas about those functions and about every
run of the steps. Buffers are `array2<byte>`, and since a gray and a paletted image behave alike at
their bounds one rotation method stands for both of the source's.

## Main results

* `EndToEnd.TagShowsStore`: at the quiet end of a run of the service in which writes succeed and handlers
  for one MAC enqueue in the order of their store accesses, a bound tag with status "ok" shows exactly the
  ink of the face drawn from its current row, provided that the tag completes only images it got whole,
  that its last delivery went over the bridge (the fake transport answers "ok" as well, without one), that
  no connection was left over when that push and the next one were set up, and that nothing else has pushed
  to the tag since. It composes agreement of store and queue (`ShopRuns.TagsFollowStore`), what the
  bridge's success means for the tag's panel, then and after all later turns (`Reassembly.OkMeansShown`,
  `TagHistory.LastPushShows`), and the wire layout (`EncoderLaws.WireIsInk`).
* `EndToEnd.TagShowsCatalog`: likewise for a modification of the catalog that some round of the poller
  reached; `Freshness.ChangeDeliveredIff` says exactly when the last delivery carries it.
* `ShopRuns.AgreesIff`, `Polling.ChangeArrivesIff`, `Connections.HonestIffClear`: when exactly the last
  binding delivered is the row, when exactly a catalog change reaches the rows, and when exactly a
  push's success can be trusted, each over every run.
* `Reassembly.ImageArrives`: any events in which every part is requested leave exactly the image.
* `EncoderLaws.WireIsSampled`: for all options, which bit of the wire stands for which face pixels.
* `LineWrap` and `WrapLaws`: the wrapping loop yields the one greedy layout, which uses the fewest lines,
  and cuts text only when no layout fits.
* `QueueRuns`: latest binding wins, nothing is lost, no wake-up is lost, service is first come first
  served, the worker drains.
* `Transfer`: the image is owned by exactly the push in flight over every sequence of events, late ones
  included, and every block stays inside the image and the 520-byte buffer.

## Where the code falls short of a promise

Each of these is stated with the exact condition under which the promise holds, or with a run that
breaks it.

* `PriceText.PriceRoundTrip`: amounts from -99 to -1 cents lose their sign.
* `PriceText.IntRoundTrip`: the least int64 is written as a bare minus sign.
* `EncoderLaws.EncodersAgree`: the two encoders differ as soon as a pixel uses a palette index above 1.
* `EncoderLaws.MirrorsAndHalfTurn`: between -180 and 0 degrees, rotations that are not multiples of 90
  break the symmetry, because `/` truncates.
* `ShopRuns.OvertakingLosesAgreement`: a handler that overtakes another one on the same MAC between
  store access and enqueue leaves the tag with a binding that the store no longer holds, reported as
  "ok". `ShopRuns.AgreesIff` says when that happens: exactly if the last handler to enqueue accessed the
  store before the last write, or its own write failed. Overlap alone does no harm.
* `Polling.OverlapIsExact`: the 30 s window covers every change that the first of two fetches could not
  see iff the clock reading, in whole milliseconds, is at most 30 s past the nanosecond that follows that
  fetch's snapshot.
* `Polling.FailedReloadIsLost`: a failed reload is not made up for. The row of an item modified once can
  stay stale for ever, whatever succeeds later; `Polling.OnceModifiedArrivesIff` says exactly when it
  does not.
* `Transfer.ServedAsMeant`: a part number whose byte offset wraps at 2^32 into the image is answered with
  an earlier stretch of it, as `Transfer.WrapServesStart` shows for part 2^30.
* `Connections.LateCompletionCounts`: a completion from the tag of an earlier, timed out push makes a push
  succeed whose own tag was never found. `Connections.HonestIffClear`: this is excluded exactly if no
  connection of an earlier push is open or being opened when the push is set up. Under the same condition,
  and only then, is a push safe from being ended by an earlier connection going down
  (`Connections.OwnEndIffClear`, `Connections.LateDisconnectEnds`).
* `Rebinding.RebindingLost`: a binding saved while its MAC's old item is being reconciled can be overwritten
  with the old item. `Rebinding.SavedSurvivesIff`: it survives iff no row read before the save and bound
  otherwise is written back after it.
* `LineWrap.WrapTTF`: below a line cap of 1 all greedy lines but the last are kept, which no caller asks
  for.

## Model

| member | source | states |
|---|---|---|
| `Panel.GrayPanel` | service/internal/render/render.go:99-132 | the scaling loops, clipped at the panel's bounds, draw the picture that says for each panel pixel which face pixel it shows |
| `Panel.SourceSize` | service/internal/render/render.go:80-91 | the panel's size is the one asked for, or 250 by 132 on an axis where nothing positive is |
| `Panel.Centered` | service/internal/render/render.go:112-113 | what fits is centered with an odd pixel left on the far side, what is too large sticks out by the same truncated half, and the nudge adds up |
| `EncoderLaws.ScalingKeepsInk` | service/internal/render/render.go:107-129 | a panel pixel is black iff the face pixel it samples is ink; a face that is not shrunk and lands inside the panel loses no ink pixel |
| `Panel.Reshape` | service/internal/render/render.go:158-177 | halves columns and doubles rows, a pixel being black iff either of its two source columns is |
| `Panel.ReshapeKeepsInk` | service/internal/render/render.go:158-177 | seen from the source: a dark pixel blackens both rows of its target column, and a target is white when both its source pixels are light |
| `Panel.TurnOnce` | service/internal/render/render.go:139-149 | one pass of the rotation loop is a quarter turn of the whole picture |
| `Panel.RotateCCW` | service/internal/render/render.go:136-151 | turns by the count modulo 4, negative counts included |
| `Panel.RotationMoves` | service/internal/render/render.go:136-151 | where each pixel goes under any count of quarter turns counter-clockwise |
| `Panel.TwoTurns` | service/internal/render/render.go:136-151 | two quarter turns are the point reflection of the picture |
| `Panel.RotationAdds` | service/internal/render/render.go:240-254 | rotations compose by adding their counts over all integers; opposite turns and full circles restore every picture, so rotation is a bijection on pixels |
| `Panel.DimsAgree` | service/internal/render/render.go:219-229 | the decoder's dimensions are those of the encoder's framebuffer for all options |
| `Panel.DimsAre` | service/internal/render/render.go:219-229 | the framebuffer's size in plain numbers, the odd column dropped, swapped by an odd number of whole quarter turns of the truncated angle |
| `Packing.PackThenRead` | service/internal/render/render.go:445-446 | reading bit i of packed bytes returns bit i, 0 in the padding, and never leaves the buffer for a bit that was written |
| `Packing.PackedMsbFirst` | service/internal/render/render.go:186-195 | each packed byte is the sum of its eight bits with weights 128 down to 1, zeros past the end |
| `Packing.ReadsMsbFirst` | service/internal/render/render.go:445-446 | the decoder's bit i is the one of weight 128, 64, ..., 1 in its byte |
| `Packing.ShrReads` | service/internal/render/render.go:446 | shifting and masking a byte recovers each of its bits |
| `Packing.ShlPads` | service/internal/render/render.go:213-215 | the final shift pads the last byte with zero bits |
| `Packing.SameReads` | service/internal/render/render.go:445-446 | bytes are determined by the bits read from them |
| `Packing.BitWriter.Emit` | service/internal/render/render.go:186-195 | appends one bit to everything emitted so far |
| `Packing.BitWriter.Flush` | service/internal/render/render.go:213-216 | returns the packed form of all bits emitted |
| `Encoder.WalkIsWire` | service/internal/render/render.go:196-216 | packing the walk yields one bit per pixel at `yi*w+xi` and zero padding |
| `Encoder.SameWire` | service/internal/render/render.go:196-216 | the wire format is unambiguous: equal bits in walk order mean equal bytes |
| `Encoder.EmitGray` | service/internal/render/render.go:181-216 | the encoder's walk produces the wire bytes of the gray framebuffer |
| `Encoder.GiciskyEncodeOpts` | service/internal/render/render.go:154-217 | the whole encoder produces the wire bytes of fitted, reshaped and rotated face |
| `Encoder.PackNative` | service/internal/render/render.go:258-294 | the native encoder produces the wire bytes of the image as it is, by palette index |
| `Encoder.EncodedPreviewOpts` | service/internal/render/render.go:417-450 | from the bytes alone the decoder redraws every framebuffer pixel at its place, xor invert, tripled, leaving no preview pixel unset |
| `EncoderLaws.EncodeThenDecode` | service/internal/render/render.go:179-229 | round trip for all options: buffer length and zero padding, an empty framebuffer included, the decoder's guard never fails, and each read is the pixel's whiteness xor invert |
| `EncoderLaws.WireIsSampled` | service/internal/render/render.go:97-217 | for every face and all options, without reference to the stages: where the bit of each pixel is, and that it is white unless a panel pixel it stands for shows ink, xor invert |
| `EncoderLaws.PreviewShowsWire` | service/internal/render/render.go:417-450 | three by three canvas pixels per framebuffer pixel, paper where the bit at its place in the walk is 1 and dark where it is 0 |
| `EncoderLaws.EncodersAgree` | service/internal/render/render.go:256-294 | without resampling both encoders send the same bytes iff the face uses only indices 0 and 1 |
| `EncoderLaws.MirrorsAndHalfTurn` | service/internal/render/render.go:196-212 | toggling both mirrors equals adding 180 degrees for every face iff the rotation is nonnegative, at most -180, or a multiple of 90 |
| `EncoderLaws.DefaultLayout` | service/internal/render/render.go:76-78 | 4125 bytes, and bit `264*r+c` is black iff one of its two face pixels is ink |
| `EncoderLaws.WireIsInk` | service/internal/render/render.go:97-217 | the black bits are exactly the two bits of each ink pixel off column 0 |
| `PriceText.Itoa` | service/internal/render/render.go:511-531 | writes decimal notation without running past the 20-byte buffer |
| `PriceText.IntRoundTrip` | service/internal/render/render.go:511-531 | parsing inverts it for every int64 but the least |
| `PriceText.Pad2` | service/internal/render/render.go:533-538 | two decimal digits for every amount below 100 |
| `PriceText.FormatPrice` | service/internal/render/render.go:502-509 | the price text with Go's truncating division |
| `PriceText.PriceShape` | service/internal/render/render.go:502-538 | a dollar sign, a number without leading zeros, a point and two digits |
| `PriceText.PriceRoundTrip` | service/internal/render/render.go:502-509 | parsing the text gives the amount back iff it is not between -100 and 0, and then gives its magnitude |
| `LineWrap.SplitWords` | service/internal/render/render.go:557-573 | the splitting loop yields the words of the text |
| `LineWrap.WordsKeepText` | service/internal/render/render.go:557-573 | splitting drops blanks and nothing else, and yields non-empty words without blanks |
| `LineWrap.SplitOfJoin` | service/internal/render/render.go:557-573 | splitting inverts joining by spaces |
| `LineWrap.SplitAt` | service/internal/render/render.go:557-573 | a space, tab or line feed anywhere splits the text into the words before and after it |
| `LineWrap.Unsplit` | service/internal/render/render.go:557-573 | a text without these three characters is one word |
| `LineWrap.GreedyExactly` | service/internal/render/schema.go:117-131 | the loop's lines are the only ones in which each takes words as long as they fit and ends only where the next does not |
| `LineWrap.FillLines` | service/internal/render/schema.go:113-131 | the loop fills greedy lines and stops at the cap exactly when more words remain |
| `LineWrap.Ellipsize` | service/internal/render/schema.go:142-148 | the last line becomes its longest prefix that fits with the ellipsis, or the ellipsis alone |
| `LineWrap.WrapTTF` | service/internal/render/schema.go:112-149 | the lines of the one greedy layout of the words, or the first ones with the last ellipsized: as many as the cap, or for a cap below 1 all but one |
| `WrapLaws.GreedyIsOptimal` | service/internal/render/schema.go:110-131 | when dropping words never widens a line, the greedy lines are a layout and no layout has fewer lines |
| `WrapLaws.CutOnlyWhenNeeded` | service/internal/render/schema.go:133-140 | text is cut iff no layout has at most the capped number of lines |
| `WrapLaws.OnlyGreedyIsFull` | service/internal/render/schema.go:117-131 | no greedy line has room for the first word of the next one, and when dropping words never widens a line no other layout is like that |
| `WrapLaws.WrappingIsFull` | service/internal/render/schema.go:112-149 | no output line kept whole has room for the word that follows it |
| `WrapLaws.WrappingKeepsText` | service/internal/render/schema.go:112-149 | uncut lines split back into the input's words; cut text keeps an exact word prefix and the longest fitting prefix of the next greedy line |
| `PushQueues.PushQueue.Enqueue` | service/internal/web/queue.go:53-65 | coalesces per MAC at its old place, makes it "queued" and no other, and leaves a wake-up token |
| `PushQueues.PushQueue.Next` | service/internal/web/queue.go:67-79 | takes the first waiting MAC that is pending |
| `PushQueues.PushQueue.SetStatus` | service/internal/web/queue.go:81-85 | changes one status and nothing else |
| `PushQueues.EnqueueKeeps` | service/internal/web/queue.go:53-60 | the waiting list stays duplicate-free and lists exactly the pending MACs |
| `PushQueues.NextServesHead` | service/internal/web/queue.go:67-79 | `next` never skips: it serves the head of the line, or nothing is pending |
| `QueueRuns.StepKeeps` | service/internal/web/queue.go:98-128 | every step of every interleaving keeps the queue's invariant |
| `QueueRuns.NothingLost` | service/internal/web/queue.go:53-79 | in every reachable state a pending MAC holds its last enqueued binding, any other had exactly that one taken last, and what was taken is a subsequence of what was enqueued |
| `QueueRuns.WakeupNeverLost` | service/internal/web/queue.go:61-64 | a worker parked before pending work always has a wake-up in the channel or on its way |
| `QueueRuns.StatusesSound` | service/internal/web/queue.go:81-85 | "pushing" means being delivered, "queued" means pending or just taken, a final status is the last delivery's outcome |
| `QueueRuns.QueuedIff` | service/internal/web/queue.go:53-60 | over every run a MAC shows "queued" iff it was enqueued and the worker has neither marked it nor recorded an outcome for it since |
| `QueueRuns.QuietMeansDelivered` | service/internal/web/queue.go:98-127 | at rest every MAC ever enqueued shows the outcome of delivering its last enqueued binding |
| `QueueRuns.FirstComeFirstServed` | service/internal/web/queue.go:53-79 | a MAC at position i is returned by the (i+1)-th `next` whatever is enqueued meanwhile |
| `QueueRuns.NoTagLeftWaiting` | service/internal/web/queue.go:98-128 | without new work every schedule is bounded and can only end with nothing pending |
| `Catalog.Cache.Replace` | service/internal/items/items.go:39-48 | rebuilds the index so that it answers as the list does |
| `Catalog.Cache.Get` | service/internal/items/items.go:50-55 | the lookup in the list of items |
| `Catalog.IndexedIsListed` | service/internal/items/items.go:42-45 | an id is found iff it is listed, and the last item listed under it wins |
| `Server.Server.SaveBinding` | service/internal/web/web.go:131-150 | stores and queues the request's tag, item and bridge with the name and price of the last item listed under that id, or the form's if none is; a failed write changes nothing; leaves a wake-up token iff there was one or something was queued |
| `Server.BindingsMean` | service/internal/web/web.go:131-144 | the binding made of a request, and the one made of a row after a catalog change, in terms of the listed items |
| `Server.OpMeans` | service/internal/web/web.go:145-149 | what writing, queueing, rereading and deleting do to the store and the queue |
| `Server.Server.HandleUpsert` | service/internal/web/web.go:152-167 | rejects missing fields, reports a failed write, and otherwise saves exactly one binding; leaves a wake-up token iff there was one or something was queued |
| `Server.Server.HandleBatch` | service/internal/web/web.go:170-190 | queues exactly the accepted requests, in array order, and lists the skipped ones with MAC and reason; leaves a wake-up token iff there was one or something was queued |
| `Server.BatchMeans` | service/internal/web/web.go:170-190 | what becomes of each request: put after those put before it, or reported in its turn as a bad request if a field is missing and as a server error if only the write failed |
| `Server.Server.HandleDelete` | service/internal/web/web.go:192-199 | drops the row and leaves the queue alone; a failed delete is reported and changes nothing |
| `Server.Server.HandleRefresh` | service/internal/web/web.go:201-210 | queues the row as stored, or reports not found when there is none or it cannot be read; leaves a wake-up token iff there was one or something was queued |
| `Server.Server.ReconcileItem` | service/internal/web/web.go:519-544 | every row bound to the item is queued as the catalog has it, and stored so where the write succeeds; every other row and its pending binding unchanged, in any row order; leaves a wake-up token iff there was one or something was queued |
| `Server.Server.ReconcileChanged` | service/internal/web/web.go:517-545 | the same for a list of changed items, repeated ids included, items whose rows cannot be read passed over; leaves a wake-up token iff there was one or something was queued |
| `Server.HandlersAreRuns` | service/internal/web/web.go:129-210 | a handler that runs alone is a run of the whole system, in order unless a write failed, so the theorems on runs cover it |
| `ShopRuns.ShopKeeps` | service/internal/web/web.go:131-150 | whatever handlers overlap or fail, every step keeps: a handler holds the row of the moment of its store access, rows are the last ones written, and the queue's own invariant |
| `ShopRuns.AgreesIff` | service/internal/web/web.go:129-210 | at rest, in any run in which a MAC's bindings differ, its tag was last delivered its row iff the last handler to enqueue for it accessed the store with or after the last write, successfully |
| `ShopRuns.TagsFollowStore` | service/internal/web/web.go:129-210 | over every run in which writes succeed and handlers for one MAC, overlapping or not, enqueue in the order of their store accesses, pending bindings agree with their rows, and at rest the last binding delivered to each bound tag equals its row |
| `ShopRuns.OvertakingLosesAgreement` | service/internal/web/web.go:145-149 | for any two different bindings of one MAC there is a run in which one handler overtakes the other that ends at rest with the wrong one delivered |
| `Rebinding.StepsAreRun` | service/internal/web/web.go:517-545 | runs in which reconciliations read rows first and write them back later are runs of the service, so what holds of those holds of them |
| `Rebinding.SavedSurvivesIff` | service/internal/web/web.go:519-538 | a saved binding survives, until its row is saved or deleted again, iff no row of its MAC that was read before the save and bound otherwise is written back |
| `Rebinding.RebindingLost` | service/internal/web/web.go:519-538 | a run in which a re-binding saved during a reconciliation is overwritten with the old item |
| `Polling.Poller.Load` | service/internal/items/poller.go:23-34 | caches a successful initial list and starts the window either way |
| `Polling.Poller.Tick` | service/internal/items/poller.go:48-70 | the window's new start, the reported ids in order, and the reloaded cache, for every outcome of fetch and reload |
| `Polling.NothingMissed` | service/internal/items/poller.go:48-55 | with prompt fetches a modification is reported by the first successful tick whose snapshot follows it, across failed ticks |
| `Polling.ReportedOnce` | service/internal/items/poller.go:49-50 | an item modified once is reported by a successful tick iff its snapshot saw the modification and its window reaches back to that millisecond |
| `Polling.OverlapIsExact` | service/internal/items/poller.go:49 | the second of two ticks reports every change after the first snapshot, to the nanosecond, iff the first one's clock reading was in whole milliseconds at most 30 s past the nanosecond after its snapshot, or the second snapshot is not later |
| `Polling.ChangeArrivesIff` | service/internal/items/poller.go:48-69 | over any rounds of fetches and reloads, a bound row comes to show the item's newest modification iff some round reported the item while the cached list, reloaded then or earlier, was not older than it |
| `Polling.OnceModifiedArrivesIff` | service/internal/items/poller.go:48-69 | the same in times alone for an item modified once: windows that reach back to it, and listings taken at or after it |
| `Polling.ChangeReachesRows` | service/internal/items/poller.go:48-69 | if the first successful tick to see a modification also reloads the cache, every row bound to the item shows it from then on |
| `Polling.FailedReloadIsLost` | service/internal/items/poller.go:55-61 | a run whose first tick reports the change and fails to reload: the row never shows it, whatever later rounds do |
| `Polling.TickAndReconcile` | service/internal/items/poller.go:48-69 | after a tick every row of a changed item is stored and queued as the cached list has it, every other row untouched; the operations done, and the wake-up token they leave |
| `Polling.Run` | service/internal/items/poller.go:23-46 | initial load and any number of ticks, each handed to the server: clock, cached list and rows are those of the rounds, exactly the rows of reported items are queued, as stored, and the operations lead there |
| `Freshness.ChangeDeliveredIff` | service/internal/web/web.go:517-545 | in any interleaving of those operations with the queue's worker, at rest the last binding delivered carries an item's newest modification iff some round reached it |
| `Clover.Get` | service/internal/clover/clover.go:67-99 | at most six attempts, stopping at the first that is not rate limited, and the exact sum of the waits |
| `Clover.WaitBefore` | service/internal/clover/clover.go:103-114 | each wait is what the Retry-After header asks, if positive, or else 1, 2, 4, 8, 16 seconds |
| `Clover.BackoffDoubles` | service/internal/clover/clover.go:103-114 | without Retry-After attempt n comes after 2^(n-1)-1 seconds, at most 31 |
| `Clover.Pull` | service/internal/clover/clover.go:132-161 | succeeds iff every page is delivered and no pause is cancelled, after N/100+1 pages, with the kept items of the whole catalog in order |
| `Clover.KeptExactly` | service/internal/clover/clover.go:147-153 | an item occurs in the result as often as in the catalog if it is kept, and never otherwise |
| `Clover.KeptInOrder` | service/internal/clover/clover.go:147-153 | kept items come in the catalog's order |
| `Clover.ListItems` | service/internal/clover/clover.go:132-161 | the whole catalog without its hidden items |
| `Clover.ChangedSince` | service/internal/clover/clover.go:178-205 | every item the server's time filter keeps, hidden ones included; succeeds iff every page of the filtered list is delivered, after N/100+1 pages |
| `Transfer.LE32RoundTrip` | bridge/main/ble_push.c:304-305 | a 32-bit number survives encoding and decoding |
| `Transfer.LittleEndian` | bridge/main/ble_push.c:304-305 | the four bytes written sum to the number with weights 1, 2^8, 2^16, 2^24 |
| `Transfer.LittleEndianRead` | bridge/main/ble_push.c:354 | four bytes are read with the same weights and written back as they were |
| `Transfer.AnnouncementAnswered` | bridge/main/ble_push.c:339-350 | a block size is taken over, at most 520, and the image's length declared in an eight-byte command, low byte first |
| `Transfer.RequestAnswered` | bridge/main/ble_push.c:295-312 | a request is answered with its own four bytes and the image from the part's offset on, as far as block and image go, or with nothing |
| `Transfer.OthersAnswered` | bridge/main/ble_push.c:351-365 | acceptance starts the transfer, completion sets the flag and closes the connection, anything else has no effect |
| `Transfer.WhatEndsPush` | bridge/main/ble_push.c:260-473 | a scan without result, the watchdog, a failed or lost connection end the push and free it; the watchdog closes the connection or, without one, the scan |
| `Transfer.WhatIsDialled` | bridge/main/ble_push.c:453-466 | only the target of a push still looking for it is dialled, once, and a dial that fails ends the push |
| `Transfer.WhatStarts` | bridge/main/ble_push.c:475-509 | a push waits iff nothing stands against it, with a copy of its image and nothing left of earlier ones; otherwise nothing stays allocated |
| `Transfer.HandleKeeps` | bridge/main/ble_push.c:260-473 | every callback keeps the ownership invariant and sends at most 520 bytes |
| `Transfer.BeginKeeps` | bridge/main/ble_push.c:475-509 | setting up a push keeps it too, on every failure path |
| `Transfer.BlockInBounds` | bridge/main/ble_push.c:295-312 | a block is its part number and a non-empty stretch inside the image, even when the offset wraps |
| `Transfer.ServedAsMeant` | bridge/main/ble_push.c:295-302 | a part is served what its number means iff its offset does not wrap into the image |
| `Transfer.WrapServesStart` | bridge/main/ble_push.c:295-302 | with block size 8, part 2^30 has no bytes but is answered with the image's first four |
| `Transfer.OwnershipAndBounds` | bridge/main/ble_push.c:241-279 | over every history of pushes and events: pushing iff an image is allocated iff its length is positive, allocations and frees balance, the image is one that was pushed, and blocks are stretches of it |
| `Transfer.OkMeansCompletion` | bridge/main/ble_push.c:356-359 | the success flag is set iff a completion notification came |
| `Transfer.PushReport` | bridge/main/ble_push.c:512-515 | a push that waited reports success iff it was cleaned up and a completion came since its setup |
| `Connections.HistoryKeeps` | bridge/main/ble_push.c:475-516 | at every moment of a history of pushes and events that connections allow, all connections and connection attempts belong to pushes so far, late ones included |
| `Connections.HonestIffOwn` | bridge/main/ble_push.c:356-359 | after any history (`HistoryKeeps`) and for any events of the wait: the push's target was dialled, connected and completed iff a completion came on a connection of that push; success only says that some completion came |
| `Connections.HonestIffClear` | bridge/main/ble_push.c:475-515 | after any history (`HistoryKeeps`), every success of the next push is honest, whatever happens, iff at its setup no connection of an earlier push is open or being opened |
| `Connections.LateCompletionCounts` | bridge/main/ble_push.c:270-279 | a real history, with a stalled push that the watchdog ended, in which a leftover completion makes the next push succeed whose tag was never found |
| `Connections.OwnEndIffClear` | bridge/main/ble_push.c:314-330 | after any history, a push is ended by nothing but its own events and timers, whatever happens, iff at its setup no connection of an earlier push is open or being opened |
| `Connections.LateDisconnectEnds` | bridge/main/ble_push.c:327-330 | after the same stalled push, its connection going down ends the next push |
| `Bridge.Bridge.PushCleanup` | bridge/main/ble_push.c:260-268 | frees an allocated image once and resets the push |
| `Bridge.Bridge.SendBlock` | bridge/main/ble_push.c:295-312 | builds the block in the 520-byte buffer without leaving buffer or image |
| `Bridge.Bridge.NotifyRx` | bridge/main/ble_push.c:331-365 | the protocol's reply to each notification, short ones zero-padded |
| `Bridge.Bridge.Callback` | bridge/main/ble_push.c:260-473 | each callback does to the globals what the state machine says |
| `Bridge.Bridge.Start` | bridge/main/ble_push.c:475-509 | the setup, with its early returns |
| `Bridge.Bridge.BlePush` | bridge/main/ble_push.c:475-516 | a push that was set up waits exactly until a poll after which it is cleaned up, or for 760 polls, and success means a completion among the events of those polls |
| `Reassembly.OnePart` | bridge/main/ble_push.c:295-312 | one answered request puts exactly its stretch of the image in the tag's memory, and a part past the end nothing |
| `Reassembly.RequestedArrive` | bridge/main/ble_push.c:331-365 | through any steady events the tag gets exactly the parts requested, and holds the image on all of them |
| `Reassembly.ImageArrives` | bridge/main/ble_push.c:229-236 | any events in which every part is requested, and none ends the transfer or announces a size anew, leave exactly the image |
| `Reassembly.OkMeansShown` | bridge/main/ble_push.c:511-515 | for any events during and after the wait, a push that reports success leaves its bits on the panel of a tag that completes only what it got whole, if notifications come from that tag |
| `Reassembly.PushedBitsArrive` | bridge/main/ble_push.c:339-355 | from the setup on: the tag is dialled, greeted and declared the image, and ends with the bits that were pushed |
| `Reassembly.DialogueSucceeds` | bridge/main/ble_push.c:229-236 | in a dialogue that goes well the bridge connects, declares, starts, sends one block per valid request, closes that connection and does nothing else, and ends in success with the image freed |
| `Reassembly.BlocksAwaitAnnouncement` | bridge/main/ble_push.c:493 | no block is sent in a push before the tag announced its block size in that push, whatever events come |
| `TagHistory.OkShowsBits` | bridge/main/ble_push.c:475-516 | a push that finds no earlier connection and answers "ok" leaves its bits on its tag's panel |
| `TagHistory.LastPushShows` | bridge/main/ble_push.c:475-516 | through any history of the bridge, a careful tag ends up showing the bits of the last push to it, if that answered "ok" and no connection was left over when it and the next one were set up |
| `EndToEnd.TagShowsStore` | service/internal/web/web.go:556-578 | with in-order handlers and successful writes, at rest a bound tag with status "ok" shows the face drawn from its current row, if it is careful, its last delivery went over the bridge with no connection left over, and nothing else pushed to it since |
| `EndToEnd.TagShowsCatalog` | service/internal/web/web.go:517-578 | under the same conditions on tag and bridge, the tag of an item whose newest modification a round of the poller reached shows the face of that modification |

## Left out

- Drawing: glyphs, fonts, `drawAligned`, `RenderSchema`'s placement and the PNG encoding are library calls or fixed drawings. Faces are arbitrary pictures, and text width is an arbitrary function.
- The float content scale: the resampling takes the scaled size `(cw, ch)` as integers, which are `(250, 122)` at scale 1.
- `Pack`, the test patterns and the preview of a plain face: not on the way to a tag, and easy.
- Go's `int` overflow in image arithmetic, and the backing layout of image buffers.
- Strings are sequences of characters; invalid UTF-8, which Go replaces rune by rune, is not modelled.
- SQLite, HTTP, JSON, routing, templates, logging and health checks. The store is a map, and the outcome of a push is arbitrary. Timestamps of rows and statuses are dropped, so `MarkPushed` has no effect here.
- `ShopRuns.AgreesIff`: assumes that the bindings given to a MAC are pairwise different, since equal ones cannot be told apart at the tag.
- `Polling.ChangeArrivesIff`: items are added and modified but not removed or hidden, the store works, and no handler writes the row between the rounds.
- `EndToEnd.TagShowsStore`: the tag's own behaviour is not in the source; it is assumed to announce at most 520 and to report completion only of a declared image all of whose parts it got. How a MAC is parsed is arbitrary, but no two MACs of the queue may name one tag. Nothing is said of deliveries over the fake transport, which answers "ok" without a bridge when `INKTAGS_FAKE_HEALTHY=1`, or over another bridge.
- `WrapLaws.GreedyIsOptimal`: assumes that dropping words from either end of a line never widens it, which kerning could break.
- `Clover.Pull`: assumes that the catalog does not change during the listing; without that the code's loop need not end.
- `Catalog`'s search, the fake source, the router and bridge bookkeeping: easy members only.
- `Bridge.Bridge.Callback`: a callback, and `ble_push`'s setup, is one atomic step; preemption inside one is not modelled. GATT discovery, MTU exchange, subscription and the scan and dump commands are library plumbing.
- `Reassembly.ImageArrives`: covers announced block sizes from 5 to 520; the bridge clamps larger ones, and how a tag would then place its blocks is not in the source.
- The bridge's WiFi setup, credentials and HTTP server.
