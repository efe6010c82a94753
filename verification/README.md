# Mail text, chat display and toolbar sets: a verified model

Three pieces of Thunderbird that carry state from call to call, each modelled in the form it has
in the source and proved against a simple reading of what it is for.

**The UTF-7 and modified UTF-7 converters** (`Utf7*.dfy`, `Bits.dfy`, `OutputBuffer.dfy`). The
encoder and the decoder are classes with the source's fields; a call reads a source and writes into
part of a caller's buffer, and may stop with `MoreOutput` to be resumed. `Utf7EncoderSpec` and
`Utf7DecoderSpec` describe a call as indivisible writes made in order, each after the test for room
that the source makes (`Feed`), and the same without a limit (`Run`); every method is proved to do
exactly that. On top of this:

- `Utf7Alphabet`: the digits, escape bytes and direct characters are those of literal tables.
- `Utf7Refinement`: on a base64 run both machines re-cut one bit string, in sixes and in sixteens.
- `Utf7Text`: the encoder's output is `EncodeText`, defined without any state machine, and
  decoding it gives every sequence of 16-bit units back.
- `Utf7Canonical`: the grammar of section 5.1.3 of RFC 3501 (for modified UTF-7; the analogous one
  for UTF-7) is exactly the set of texts the encoder writes, and decoding inverts encoding on it.
- `Utf7Decoding`: what the decoder makes of any 7-bit text at all, well-formed or not, also without
  a state machine.
- `Utf7Size`: the exact length of encoded text and a bound that is attained.
- `Utf7EncoderOverrun`, `Utf7DecoderOverrun`: the source tests for one byte before it writes the two
  of an escape pair, and does not test before it writes the decoded escape unit. So a call can
  write past the room it was given. Both modules show inputs for which it does, and prove exactly
  when it does, when a call succeeds, and what a call that tested for every write would have done.
- `Utf7Streaming`: the objects driven with arbitrary pieces of source and arbitrary buffer sizes.
- `MsgI18N`: the functions that call the converters. Decoding never needs more than its buffer;
  encoding a folder name through 100 bytes does, for 99 printable characters and '&'.

**The chunked display of chat messages** (`MessageQueue.dfy`, `ConversationBrowser.dfy`). The view
object keeps an array of pending messages, an index and a counter; idle callbacks with arbitrary
deadlines show some messages each. The class is proved, event by event, to refine a protocol whose
state is simply the backlog and what has been shown. Over every run nothing is lost, repeated,
reordered or stranded, only the last message of a backlog may scroll the view, a drain begins only
in an active view and waits for one callback, and a chunk ends exactly when its time is over.

**Toolbar reconciliation** (`IdList.dfy`, `Toolbar*.dfy`, `CustomizableToolbar.dfy`). Setting
`currentSet` rearranges the live child list, drawing on the palette and on other toolbars. The
nested loops are proved to compute `Reconcile`; no node is lost, fixed items stay, and reading the
property after setting it gives the listed items and then the unlisted fixed ones. It is also proved
which nodes are taken, in what order all others stand, and which of them can be removed again.

Where the source and its comments differ the source is followed: the comment at
mailnews/intl/nsUTF7ToUnicode.h:53 calls `nsUTF7ToUnicode` a converter from modified UTF-7, but it is
built with '/' and '+', and '+' is not in `nsUnicodeToUTF7::DirectEncodable`, so the escape pair
branch of the plain UTF-7 encoder is never taken.

`dafny verify dfyconfig.toml` checks the whole project.

## Model

| member | source | states |
|---|---|---|
| Utf7Scheme.Scheme.Digit | mailnews/intl/nsUnicodeToUTF7.cpp:173-186 | a value below 64 is printed as a digit that reads back as it, never as the -1 of the last branch and never as '-' |
| Utf7Scheme.Scheme.DigitAlphabet | mailnews/intl/nsUTF7ToUnicode.cpp:132-145 | the two lookups are inverse: the bytes that have a value are exactly the printed digits, and '-' is none |
| Utf7Alphabet.DigitsAreTable | mailnews/intl/nsUnicodeToUTF7.cpp:173-186 | the digit of value d is the d-th of A-Z, a-z, 0-9, '+' and then '/' in plain or ',' in modified UTF-7, for all 64 values |
| Utf7Alphabet.EscapeBytes | mailnews/intl/nsUnicodeToMUTF7.cpp:11 | runs open with '+' in plain and '&' in modified UTF-7 and close with '-' |
| Utf7Alphabet.DirectIsTable | mailnews/intl/nsUnicodeToUTF7.cpp:261-302 | plain UTF-7 writes exactly the characters of a literal table directly, modified UTF-7 exactly those from the space to the tilde |
| Utf7EncoderSpec.Group | mailnews/intl/nsUnicodeToUTF7.cpp:122-160 | in each phase every digit value is below 64 and the leftover bits stay left-aligned |
| Utf7Encoder.Encoder.Reset | mailnews/intl/nsUnicodeToUTF7.cpp:249-254 | back to direct mode with nothing held, whatever the state was |
| Utf7Encoder.Encoder.ShiftEncoding | mailnews/intl/nsUnicodeToUTF7.cpp:24-60 | writes the padded digit and the shift byte as far as they fit; with room for the digit only, '-' stays owed |
| Utf7Encoder.Encoder.EncodeDirect | mailnews/intl/nsUnicodeToUTF7.cpp:62-103 | advances a call under way to the first unit that is not direct, or is stuck for room; an escape pair is written whole as soon as one byte is free; nothing else changes |
| Utf7Encoder.Encoder.EncodeUnit | mailnews/intl/nsUnicodeToUTF7.cpp:122-165 | one unit in base64 mode: all the digits it completes, or nothing and MoreOutput |
| Utf7Encoder.Encoder.EncodeBase64 | mailnews/intl/nsUnicodeToUTF7.cpp:105-171 | advances a call under way to the first direct unit, or is stuck for room |
| Utf7Encoder.Encoder.ConvertNoBuffNoErr | mailnews/intl/nsUnicodeToUTF7.cpp:199-242 | makes exactly the writes of `Feed`: state, units read, bytes written, status, and no other element of the array touched, within the room or behind it; the memory it needs is what `Feed` writes |
| Utf7Encoder.Encoder.FinishNoBuff | mailnews/intl/nsUnicodeToUTF7.cpp:244-247 | shifts out within the room there is and says whether it is done |
| Utf7EncoderSpec.FeedResumes | mailnews/intl/nsUnicodeToUTF7.cpp:212-241 | for any room, what a call wrote and then what the unread suffix yields from the state it left is the whole output |
| Utf7EncoderSpec.FeedReads | mailnews/intl/nsUnicodeToUTF7.cpp:212-241 | a call succeeds if and only if it read everything, and always when the whole output fits |
| Utf7EncoderSpec.FeedProgress | mailnews/intl/nsUnicodeToUTF7.cpp:31-59 | with three bytes of room a call that reads no unit has at least paid a mode change that was owed |
| Utf7EncoderOverrun.EscapeIsDirect | mailnews/intl/nsUnicodeToUTF7.cpp:261-292 | the escape pair is written in direct mode of modified UTF-7 for '&' only; in plain UTF-7 never |
| Utf7EncoderOverrun.FeedIsGuarded | mailnews/intl/nsUnicodeToUTF7.cpp:78-86 | a call does what it would do with a test for both bytes of the pair, except that if that stops in front of a pair with one byte left, the pair is written all the same and nothing after it |
| Utf7EncoderOverrun.OverrunsWhenGuardedStops | mailnews/intl/nsUnicodeToUTF7.cpp:78-86 | a call writes past its room if and only if the fully tested call stops in front of an escape pair with one byte left, and then by one byte |
| Utf7EncoderOverrun.OverrunsExactly | mailnews/intl/nsUnicodeToUTF7.cpp:78-86 | on the input: a call writes past its room if and only if, in modified UTF-7, the output up to and with some '&' is one byte longer than the room |
| Utf7EncoderOverrun.SucceedsExactly | mailnews/intl/nsUnicodeToUTF7.cpp:212-241 | a call succeeds if and only if the output fits, or is one byte too long and the last unit is the '&' of modified UTF-7 |
| Utf7EncoderOverrun.StaysWithin | mailnews/intl/nsUnicodeToUTF7.cpp:62-103 | without '&', or in plain UTF-7, every call in any state and room stays within it and is the fully tested call |
| Utf7EncoderOverrun.PlainThenEscape | mailnews/intl/nsUnicodeToUTF7.cpp:78-86 | inputs for which it happens: n plain units and '&' with room n + 1 are reported as success with n + 2 bytes written |
| Utf7EncoderSpec.RunConcat | mailnews/intl/nsUnicodeToUTF7.cpp:212-237 | feeding a and then b through the same object is feeding a + b, at every split |
| Utf7EncoderSpec.ShiftFinishes | mailnews/intl/nsUnicodeToUTF7.cpp:35-58 | finishing within any room resumes, succeeds if and only if it fits, and shortens what is owed when there is any room |
| Utf7DecoderSpec.ShiftFits | mailnews/intl/nsUTF7ToUnicode.cpp:76-119 | every sum in the eight phases adds disjoint bits: no overflow of 16 bits, leftovers left-aligned |
| Utf7Decoder.Decoder.Reset | mailnews/intl/nsUTF7ToUnicode.cpp:206-211 | direct mode with nothing held; the flag keeps its old value |
| Utf7Decoder.Decoder.DecodeDirect | mailnews/intl/nsUTF7ToUnicode.cpp:20-53 | passes bytes through up to the escape byte, the end or a full buffer |
| Utf7Decoder.Decoder.DecodeDigit | mailnews/intl/nsUTF7ToUnicode.cpp:76-124 | one digit in its phase: the unit it completes, or nothing and MoreOutput |
| Utf7Decoder.Decoder.DecodeBase64 | mailnews/intl/nsUTF7ToUnicode.cpp:55-130 | consumes digits up to a byte that is none, the end or a full buffer |
| Utf7Decoder.Decoder.Attempt | mailnews/intl/nsUTF7ToUnicode.cpp:162-174 | decodes in the current mode until done, full, or blocked at an in-bounds byte that starts or ends a run; the unit of an escape pair is written whatever room there is |
| Utf7Decoder.Decoder.Switch | mailnews/intl/nsUTF7ToUnicode.cpp:180-196 | the byte that blocked opens a run or ends one, and is read if it is the escape byte or '-' and kept otherwise: the next move of the machine |
| Utf7Decoder.Decoder.ConvertNoBuff | mailnews/intl/nsUTF7ToUnicode.cpp:150-204 | terminates, never returns IllegalInput, and makes exactly the moves of `Feed`: no other element of the array is touched, and the memory it needs is what `Feed` writes |
| Utf7DecoderSpec.FeedResumes | mailnews/intl/nsUTF7ToUnicode.cpp:161-199 | for any room, what a call wrote and then what the unread suffix yields from the state it left is the whole output |
| Utf7DecoderSpec.FeedReads | mailnews/intl/nsUTF7ToUnicode.cpp:161-199 | a call succeeds if and only if it read everything, and always when the output fits |
| Utf7DecoderSpec.FeedProgress | mailnews/intl/nsUTF7ToUnicode.cpp:161-199 | with room for one unit every call on a non-empty source reads a byte |
| Utf7DecoderSpec.RunConcat | mailnews/intl/nsUTF7ToUnicode.cpp:163-196 | feeding a and then b through the same object is feeding a + b, at every split |
| Utf7DecoderSpec.Total | mailnews/intl/nsUTF7ToUnicode.cpp:161-203 | on every 7-bit input, room for as many units as bytes is enough to consume all of it |
| Utf7DecoderSpec.FreshDoesNotMatter | mailnews/intl/nsUTF7ToUnicode.cpp:167-187 | the uninitialised flag never changes what is decoded |
| Utf7DecoderOverrun.FeedIsGuarded | mailnews/intl/nsUTF7ToUnicode.cpp:167-171 | a call writes past its room if and only if a call with a test before the escape unit would stop at the '-' of an escape pair with no room left; otherwise the two are equal |
| Utf7DecoderOverrun.FeedGoesOn | mailnews/intl/nsUTF7ToUnicode.cpp:161-199 | in every case a call does what the fully tested call does and goes on from there |
| Utf7DecoderOverrun.OverrunsExactly | mailnews/intl/nsUTF7ToUnicode.cpp:167-171 | on the input: a call writes past its room if and only if at some '-' the bytes before it leave a fresh run and have filled the room exactly |
| Utf7DecoderOverrun.FailsExactly | mailnews/intl/nsUTF7ToUnicode.cpp:39-46 | on the input, for any room: a call fails if and only if a unit other than that of an escape pair is due when the room is used up or exceeded |
| Utf7DecoderOverrun.RoomOfLength | mailnews/base/src/nsMsgI18N.cpp:104-116 | a room of as many units as the input has bytes, which is what both callers give, is never exceeded |
| Utf7DecoderOverrun.NoPairStaysWithin | mailnews/intl/nsUTF7ToUnicode.cpp:167-171 | input without the escape byte followed by '-' is decoded within any room |
| Utf7DecoderOverrun.PlainThenPairs | mailnews/intl/nsUTF7ToUnicode.cpp:167-171 | inputs for which it happens: a plain byte and n escape pairs with room for one unit are reported as success with n + 1 units written |
| Utf7Refinement.EncoderBits | mailnews/intl/nsUnicodeToUTF7.cpp:116-166 | from any base64 state: bits held, then the units' bits, are the digits written and then the bits held |
| Utf7Refinement.DecoderBits | mailnews/intl/nsUTF7ToUnicode.cpp:66-125 | from any base64 state: bits held, then the digits' bits, are the units written and then the bits held |
| Utf7Refinement.EncoderRefinesRecutting | mailnews/intl/nsUnicodeToUTF7.cpp:116-166 | after k units of a run: floor(8k/3) digits cut from their bits, phase k mod 3, the rest left-aligned in six bits |
| Utf7Refinement.DecoderRefinesRecutting | mailnews/intl/nsUTF7ToUnicode.cpp:66-125 | after d digits of a run: floor(3d/8) units cut from their bits, phase d mod 8, the rest left-aligned in sixteen bits |
| Utf7Text.EncoderWritesText | mailnews/intl/nsUnicodeToUTF7.cpp:199-247 | converting and finishing writes direct units as themselves and each maximal run of others as one closed, zero-padded base64 run |
| Utf7Text.DecodesBack | mailnews/intl/nsUTF7ToUnicode.cpp:150-204 | decoding the text of any units gives them back and ends in direct mode, whatever the flag was |
| Utf7Text.RoundTrip | mailnews/intl/nsUnicodeToUTF7.cpp:199-247 | what the encoder machine writes and finishes, the decoder machine reads back as the same units, ending in direct mode, in both schemes |
| Utf7Decoding.DecoderReadsText | mailnews/intl/nsUTF7ToUnicode.cpp:150-204 | for every 7-bit text and from every direct state: bytes up to the escape as they are, the escape byte and '-' as the escape unit, otherwise the maximal run of digits cut in units, a '-' behind it absorbed and any other byte kept; the final mode is base64 exactly if the text ends in a run |
| Utf7Decoding.EncodedReads | mailnews/intl/nsUTF7ToUnicode.cpp:150-204 | so read, the text of any units is those units, with no run left open |
| Utf7Canonical.EncodedIsCanonical | mailnews/intl/nsUnicodeToUTF7.cpp:199-247 | encoder output is in the grammar: no null shift, no adjacent runs, zero padding, nothing encoded that is direct |
| Utf7Canonical.CanonicalInverse | mailnews/intl/nsUTF7ToUnicode.cpp:150-204 | a text of the grammar is decoded to units whose encoding is that text |
| Utf7Canonical.GrammarIsImage | mailnews/intl/nsUnicodeToUTF7.cpp:199-247 | a text is in the grammar if and only if some sequence of units is encoded as it |
| Utf7Canonical.CanonicalBytes | mailnews/intl/nsUnicodeToUTF7.cpp:188-194 | every byte of such a text is direct or the escape byte, so printable for modified UTF-7 |
| Utf7Canonical.FolderNamesPrintable | mailnews/intl/nsUnicodeToUTF7.cpp:188-194 | every byte of encoded modified UTF-7 lies in 0x20..0x7e |
| Utf7Size.ExactSize | mailnews/intl/nsUnicodeToUTF7.cpp:35-53 | the length is that of the direct units (two for the escape) plus 2 + ceil(8k/3) per maximal run of k others |
| Utf7Size.SizeBound | mailnews/intl/nsUnicodeToUTF7.cpp:72-166 | twice the length is at most 7n + 3; in plain UTF-7 the length is at most 3n + 2 |
| Utf7Size.BoundIsTight | mailnews/intl/nsUnicodeToUTF7.cpp:72-166 | both bounds are attained at every odd number of units |
| Utf7Streaming.EncodePiece | mailnews/intl/nsUnicodeToUTF7.cpp:199-242 | repeating the call on the unread suffix, with any buffers of at least three bytes, ends and contributes the piece's share of the text; some call writes past its buffer only if the piece has '&' in modified UTF-7 |
| Utf7Streaming.FinishInPieces | mailnews/intl/nsUnicodeToUTF7.cpp:244-247 | finishing with any non-empty buffers ends and writes what was owed, also split between digit and '-' |
| Utf7Streaming.EncodeInPieces | mailnews/intl/nsUnicodeToUTF7.cpp:199-247 | any pieces and any buffers of at least three bytes give the text of the units, within the buffers in plain UTF-7 and when there is no '&' |
| Utf7Streaming.DecodePiece | mailnews/intl/nsUTF7ToUnicode.cpp:150-204 | repeating the call on the unread suffix, with any non-empty buffers, ends and contributes the piece's share of the units |
| Utf7Streaming.DecodeInPieces | mailnews/intl/nsUTF7ToUnicode.cpp:150-204 | any pieces and any non-empty buffers give the units and the final state that one call with enough room would, which are the reading of the text; no buffer is exceeded if each is as long as any piece |
| Utf7Streaming.Transport | mailnews/intl/nsUTF7ToUnicode.cpp:150-204 | encoded in any pieces, cut anywhere and decoded in any pieces, the units arrive unchanged and the decoder ends in direct mode |
| MsgI18N.CopyUTF16toMUTF7 | mailnews/base/src/nsMsgI18N.cpp:118-138 | the loop over one buffer of 100 bytes ends with the text of the name; the byte behind the buffer is written if and only if, from the state and unit some call begins with, the pair of an '&' ends one byte behind 100; so never without '&' |
| MsgI18N.FolderNameOverruns | mailnews/base/src/nsMsgI18N.cpp:117-130 | any 99 printable characters other than '&', then '&', are such a name |
| MsgI18N.CopyToUTF16 | mailnews/base/src/nsMsgI18N.cpp:151-163 | one call with room for as many units as bytes reads everything with no memory behind the buffer, gives the reading of any 7-bit text, and gives back every encoded name; CopyUTF7toUTF16 is the same with the other scheme |
| MsgI18N.FolderNameExample | mailnews/base/src/nsMsgI18N.cpp:118-138 | the name Entwürfe is encoded as Entw&APw-rfe |
| ConversationBrowser.Browser.AppendMessage | chat/content/conversation-browser.js:447-456 | the message joins the backlog, and in an active view that is not draining one callback is requested |
| ConversationBrowser.Browser.SetIsActive | chat/content/conversation-browser.js:440-445 | activating with a backlog displays at once unless a drain is under way |
| ConversationBrowser.Browser.StartDisplayingPendingMessages | chat/content/conversation-browser.js:458-478 | starts at most one drain, delayed or at once |
| ConversationBrowser.Browser.GetNextPendingMessage | chat/content/conversation-browser.js:487-501 | takes the head of the backlog and clears the array exactly when it was the last |
| ConversationBrowser.Browser.ShowChunk | chat/content/conversation-browser.js:512-525 | shows the front of the backlog in order, each message with its scroll mark: one, and one more for each answer above 2 ms, until an answer is not or messages run out |
| ConversationBrowser.Browser.DisplayPendingMessages | chat/content/conversation-browser.js:507-554 | refines the abstract callback; afterwards the counter and the index agree again |
| ConversationBrowser.Browser.InitConversation | chat/content/conversation-browser.js:303-328 | stops the drain and keeps the backlog |
| ConversationBrowser.Browser.OnStateChange | chat/content/conversation-browser.js:53-109 | resets the view on the load of the conversation page and ignores every other notification |
| ConversationBrowser.Browser.DestroyView | chat/content/conversation-browser.js:391-397 | stops the drain, once |
| MessageQueue.StepInv | chat/content/conversation-browser.js:447-554 | every event, stale callbacks included, keeps order, liveness and the final scroll |
| MessageQueue.Safety | chat/content/conversation-browser.js:82-95 | over every run: the messages sent since the load, counted from the events alone, are those shown followed by those unshown; a loaded active view with a backlog is draining with a callback outstanding; when all is shown the last message was allowed to scroll |
| MessageQueue.StepShows | chat/content/conversation-browser.js:512-525 | only a callback in a drain or the activation of an idle view with a backlog shows anything: a front part of the backlog, marked as that whole backlog, that ends exactly when no more than 2 ms remain or nothing is left |
| MessageQueue.ChunkBounds | chat/content/conversation-browser.js:525-525 | with time to spare one callback shows the whole backlog, without any it shows one message |
| MessageQueue.StepDrains | chat/content/conversation-browser.js:440-478 | a drain is on after an event if and only if messages are left, the event did not stop it, and it was on or a message or activation came to a view active by then; and exactly how many callbacks are outstanding |
| MessageQueue.BackgroundView | chat/content/conversation-browser.js:447-456 | a view that is never activated shows nothing and requests no callback in any run, and keeps all messages sent |
| MessageQueue.OneCallback | chat/content/conversation-browser.js:458-467 | over every run a drain waits for one callback, and others are outstanding only from drains that a reset stopped |
| MessageQueue.ScrollsWhenDrained | chat/content/conversation-browser.js:519-524 | a newly shown message may scroll if and only if it is the last one and nothing is left |
| MessageQueue.StaysDrained | chat/content/conversation-browser.js:507-510 | callbacks after the end of a drain show nothing |
| MessageQueue.Drains | chat/content/conversation-browser.js:507-554 | without new messages a drain ends within as many callbacks as there are messages, and the marks do not depend on where chunks were cut |
| IdList.ParseRender | common/bindings/customizable-toolbar.js:116-116 | a rendered list of ids is parsed back to that list |
| IdList.RenderParse | common/bindings/customizable-toolbar.js:116-189 | every value but the empty one is written out again as it was after being split at its commas |
| CustomizableToolbar.Toolbar.GetCurrentSet | common/bindings/customizable-toolbar.js:178-190 | reads the names of the children that have one, or "__empty" |
| ToolbarOutcome.ElementNames | common/bindings/customizable-toolbar.js:199-209 | skipped nodes have no name; separators, springs and spacers have the literal ones, all others their ids |
| CustomizableToolbar.Toolbar.GetItem | common/bindings/customizable-toolbar.js:217-259 | creates a special item, or finds an item on a toolbar of the toolbox, or in the palette, or none |
| CustomizableToolbar.Toolbar.CachePalette | common/bindings/customizable-toolbar.js:107-114 | the palette by id, the last node winning |
| CustomizableToolbar.Toolbar.FindChild | common/bindings/customizable-toolbar.js:126-128 | the first child from the cut on that goes by the id |
| CustomizableToolbar.Toolbar.PlaceItem | common/bindings/customizable-toolbar.js:125-154 | one id of the list: move the child, or fetch and insert an item that has not been added, or nothing |
| CustomizableToolbar.Toolbar.ClearLeftovers | common/bindings/customizable-toolbar.js:157-170 | fixed leftovers stay in order, loose ones go to the palette from the last to the first, or are dropped without one |
| CustomizableToolbar.Toolbar.SetCurrentSet | common/bindings/customizable-toolbar.js:101-171 | the setter: reconciles unless the value is current, changes no node's id, kind or skipping, makes fetched items and no others removable, brings in only new special items, keeps every node when there is a palette, keeps fixed and nameless items, and then reads as expected |
| ToolbarNodes.PlaceIdSound | common/bindings/customizable-toolbar.js:122-155 | from one id to the next every node is at one place, placed ids are recorded, and cached palette items are still there unless added |
| ToolbarLaws.Conservation | common/bindings/customizable-toolbar.js:107-169 | over toolbar, palette and siblings every old node is kept exactly once; without a palette exactly the loose leftovers are dropped |
| ToolbarLaws.FixedItemsStay | common/bindings/customizable-toolbar.js:157-170 | skipped, nameless and non-removable children never leave the toolbar |
| ToolbarReading.PlaceAllOrigins | common/bindings/customizable-toolbar.js:122-155 | a placed node is an old one, unchanged but for `removable`, or a new separator, spring or spacer |
| ToolbarReading.ReconcileOrigins | common/bindings/customizable-toolbar.js:107-169 | after the leftovers are cleared every node anywhere is an old one, unchanged but for `removable`, or a new separator, spring or spacer with a new identity |
| ToolbarReading.NodesKept | common/bindings/customizable-toolbar.js:107-169 | so with a palette every old node is still there with its identity, id, kind and skipping |
| ToolbarReading.SetThenGet | common/bindings/customizable-toolbar.js:101-190 | if the children that go by their ids have different ones and the list names items, the names read back are the listed ids that exist, repeats of ordinary ones dropped, then the unlisted fixed items in order |
| ToolbarReading.SetSame | common/bindings/customizable-toolbar.js:102-104 | the early return for a current value meets the same description |
| ToolbarOutcome.RemovableAfter | common/bindings/customizable-toolbar.js:147-154 | after any list, every node on the toolbar that was no child before is removable, and every other node anywhere has the attribute it had; the one exception is a child that the list has by an id it does not go by |
| ToolbarOutcome.SetThenEmpty | common/bindings/customizable-toolbar.js:101-171 | any list and then the empty one leave, of the nodes with a name, only children fixed at the start, and all of those if the list names items |
| ToolbarOutcome.OrderAfter | common/bindings/customizable-toolbar.js:157-170 | leftover children, palette and other toolbars keep their order, and the children that leave go behind the palette, last one first |
| ToolbarOutcome.TakenNodes | common/bindings/customizable-toolbar.js:122-155 | in a tidy toolbox each id takes the leftmost unclaimed child by that name, then the palette's item before another toolbar's; of the untaken children exactly the fixed ones stay, in order |
| ToolbarOutcome.CacheIsLast | common/bindings/customizable-toolbar.js:110-114 | of several palette items with one id the cache holds the last |
| ToolbarOutcome.FirstIsFirst | common/bindings/customizable-toolbar.js:238-246 | of several elements with one id the first in document order is found |

## Left out

- Utf7Decoder.Decoder.Switch: has no branch for mailnews/intl/nsUTF7ToUnicode.cpp:189-190, which the contract of Attempt shows to be unreachable.
- Utf7Encoder.Encoder.ConvertNoBuffNoErr: the array reaches behind the buffer as far as the call writes; what that memory belongs to is not modelled, so the text is right in the model also after a write past the buffer.
- Utf7Decoder.Decoder.ConvertNoBuff: source bytes are 7-bit, because widening a larger `char` at mailnews/intl/nsUTF7ToUnicode.cpp:45 depends on the platform.
- CustomizableToolbar.Toolbar.GetItem: the time and counter in a new element's id are one parameter; that they give new ids is a premise of SetThenGet only.
- ToolbarReading.SetThenGet: needs that children which go by their own id have different ids, without commas, none of them "__empty" or the name of a special item; that the list names no skipped node, no separator, spring or spacer by its own id, and no nameless one; and that the document finds listed items of other toolbars by their ids. Skipped, unlisted and nameless nodes may have any ids.
- CustomizableToolbar.Toolbar.SetCurrentSet: the items of the toolbars before and after this one are kept as two lists, so which sibling an item left is not recorded; ids that name an inherited property of a JavaScript object are not special here.
- Memory addresses, `nsresult` numbers and 32-bit lengths: positions in arrays and a small status datatype stand for them.
- `CopyFolderNameToUTF16` and the other charsets of nsMsgI18N.cpp: they call code that is not part of this model.
- DOM insertion, themes, the unread ruler, scrolling itself, the progress bar and `messageInsertPending`: effects of showing a message that the queue does not read.
- The log viewer's replacements for the two accessors of the pending messages: not part of this model.
- Messages appended between `init` and the load of the page: the reset drops them, so liveness is claimed for a loaded view.
- `insertItem`, attribute persistence, element registration and drag and drop on toolbars: only easy members.
