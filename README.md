# ncclient_3 core, modelled in Dafny

`ncclient_3` is a small bridge between NETCONF devices and Prometheus. For each
request it opens an SSH channel to a device and sends a `<get>` for the
transceiver state of the device's components. It decodes the XML reply into a
schema-free JSON tree and flattens that tree into one record per component.
This project models the three sequential parts of that path and proves what
each promises.

- **Decoder** (`XmlDecode`, `XmlDecodeLemmas`; `utils.rs`). This is the recursive XML to JSON converter.
  - The XML tokenizer is replaced by the sequence of events it yields, read through a cursor.
  - `ReadFrom` is the specification of one level of `read`. The method `Read` is the loop of the source, with its recursion once per start tag, and is proved equal to `ReadFrom`.
  - The rules proved cover `@` attributes, `#text` and `#cdata`, and the promotion of repeated siblings to arrays. They also cover how text runs collapse and the skipping of self-closing elements.
- **Framing** (`Netconf`, with `Decimal`; `netconf.rs`). This covers the greeting constant and the outgoing frame, with its reading back by a peer.
  - The terminator-scanning read loop runs over an abstract sequence of one-byte reads.
  - `get` reads the server's greeting, writes the frame, then reads the reply.
- **Component extraction** (`Components`; `routes/get_json.rs:89-148`). This covers the JSON-pointer lookups, the PRESENT/NOT_PRESENT classification, the four inventory leaves, and channel normalisation.
  - The source's nested loops become methods proved equal to specification functions.
  - A failed `unwrap` becomes an `Err` naming what was missing.

`Json` holds the tree value and the pointer lookup (section 4 of RFC 6901) as
serde_json implements it. `Wrappers` holds `Option` and `Result`.

Where the code and its documented design differ, the model follows the code:

- A read loop that ends because the channel ran dry returns what it has as a success. It does not raise an incomplete-frame error.
- `to_json` never fails.
- A failed step in `get` returns before the channel teardown is attempted.

## Model

| member | source | states |
|---|---|---|
| Decimal.Render | ncclient_3/src/netconf.rs:74 | the length field is a canonical decimal: non-empty digits, with a leading zero only for zero itself |
| Decimal.ValueOfRender | ncclient_3/src/netconf.rs:74 | reading the rendered length back as a number gives the length |
| Decimal.RenderOfValue | ncclient_3/src/netconf.rs:74 | a canonical digit string is the rendering of its own value, so a length has exactly one field |
| Json.GetIsPointer | ncclient_3/src/routes/get_json.rs:101-110 | looking up a member name with `get` (the component `name`) is following the one-step pointer to it, so it agrees with the pointer lookups on every value, arrays included |
| Json.ParseIndex | ncclient_3/src/routes/get_json.rs:92-94 | an array step of a pointer accepts exactly the canonical decimal indices, and the index renders back to the token |
| Json.PointerConcat | ncclient_3/src/routes/get_json.rs:103-110 | following a path is following its first part, then the rest from where it led |
| Json.NameTokenFailsOnArray | ncclient_3/src/routes/get_json.rs:103-110 | a member-name step (not starting with a digit) never selects anything in an array |
| XmlDecode.InsertKeeps | ncclient_3/src/utils.rs:55-80 | inserting a child adds exactly its name to the node's keys and leaves every other entry unchanged |
| XmlDecode.ReadFrom | ncclient_3/src/utils.rs:19-124 | reading a level never moves the cursor backwards or past the end of the events |
| XmlDecode.CollectAttrs | ncclient_3/src/utils.rs:31-52 | the attribute pass, skipping each attribute whose name the iterator has already yielded, yields the child and attribute map of the specification `ApplyAttrs` over the yielded attributes |
| XmlDecode.Promote | ncclient_3/src/utils.rs:63-77 | the merged array holds the existing entries in order (an existing array drained front first), then the new child |
| XmlDecode.AddChild | ncclient_3/src/utils.rs:28-80 | inserting one decoded child yields the node of the specification `Insert` |
| XmlDecode.Read | ncclient_3/src/utils.rs:19-124 | the event loop with one recursive call per start tag returns exactly the value and cursor of `ReadFrom` |
| XmlDecode.ToJson | ncclient_3/src/utils.rs:137-142 | decoding never fails and yields the document's value |
| XmlDecodeLemmas.AttrKeyInjective | ncclient_3/src/utils.rs:40 | distinct attribute names give distinct `@` keys |
| XmlDecodeLemmas.YieldedFrom | ncclient_3/src/utils.rs:32-34 | every attribute the iterator yields is one of the tag's, with a name not yielded before |
| XmlDecodeLemmas.YieldedNamesExact | ncclient_3/src/utils.rs:32-34 | every name of the tag not yielded before is yielded |
| XmlDecodeLemmas.YieldedDistinct | ncclient_3/src/utils.rs:32-34 | no name is yielded twice, because a repeat comes out as an error and is skipped |
| XmlDecodeLemmas.YieldedKeepsFirst | ncclient_3/src/utils.rs:32-34 | the first attribute of each name in the tag is the one yielded |
| XmlDecodeLemmas.YieldedKeys | ncclient_3/src/utils.rs:32-40 | the yielded attributes have exactly the `@` keys of the tag's attributes |
| XmlDecodeLemmas.YieldedFirstWins | ncclient_3/src/utils.rs:32-48 | over the yielded attributes, the value written for a name is the first value the tag gives it |
| XmlDecodeLemmas.AttrsFirstWins | ncclient_3/src/utils.rs:31-52 | writing a tag's attributes adds exactly their `@` keys, keeps every other key, and leaves the first value of each name, a later repeat never being written |
| XmlDecodeLemmas.ApplyAttrsSplit | ncclient_3/src/utils.rs:43-48 | all attributes go into an object child, and all go into the separate map otherwise |
| XmlDecodeLemmas.AttributesIntoObject | ncclient_3/src/utils.rs:43-45 | an object child receives every attribute name with its first value, overwriting same-named keys, and the separate map stays empty |
| XmlDecodeLemmas.AttributedLeaf | ncclient_3/src/utils.rs:55-62 | a non-object child with attributes becomes an object of the attributes (the first value of each name) plus `#text` exactly when the child is a string; a null or array child is dropped, and any earlier sibling of that name is replaced without promotion |
| XmlDecodeLemmas.InsertPlain | ncclient_3/src/utils.rs:63-80 | a child without attributes is stored as it is under a new name, and appended to the entries of an existing one |
| XmlDecodeLemmas.RepeatedSiblings | ncclient_3/src/utils.rs:63-80 | a first occurrence is stored as it is; later ones make an array of all occurrences in document order, one entry longer per occurrence; other entries are untouched |
| XmlDecodeLemmas.RepeatedSiblingsInOrder | ncclient_3/src/utils.rs:63-80 | two or more non-array siblings become exactly the array of the siblings in order |
| XmlDecodeLemmas.FlatLevel | ncclient_3/src/utils.rs:24-99 | a level without child elements resolves, at its end, to the texts and the last CDATA it saw |
| XmlDecodeLemmas.TextOnlyElement | ncclient_3/src/utils.rs:119-123 | with only text: no run gives null, one run gives that string, two or more give the array of the runs in order |
| XmlDecodeLemmas.CDataElement | ncclient_3/src/utils.rs:88-93 | with CDATA: an object holding exactly `#cdata` (the last section) and `#text` (the first text run) when there was text |
| XmlDecodeLemmas.NonEmptyNodeGivesObject | ncclient_3/src/utils.rs:101-116 | a level whose node is non-empty decodes to an object keeping its keys, with the first text run under `#text` |
| XmlDecodeLemmas.ChildElementGivesObject | ncclient_3/src/utils.rs:101-116 | an element with a child element decodes to an object holding that child's entry |
| XmlDecodeLemmas.SkippedLeaveNoTrace | ncclient_3/src/utils.rs:95-97 | two event streams that differ only in skipped events decode to the same value and leave the same events unread |
| XmlDecodeLemmas.SameEventNoTrace | ncclient_3/src/utils.rs:24-116 | two such streams that go on with the same event stay in step through it |
| XmlDecodeLemmas.DecodeIgnoresSkipped | ncclient_3/src/utils.rs:95-97 | a document decodes as it would with every self-closing element, declaration, comment and error removed |
| XmlDecodeLemmas.LeafDocument | ncclient_3/src/utils.rs:119-123 | `<a>5</a>` decodes to `{"a": "5"}`, a string leaf without numeric coercion |
| XmlDecodeLemmas.EmptyDocument | ncclient_3/src/utils.rs:119-123 | `<e></e>` decodes to `{"e": null}` |
| XmlDecodeLemmas.RepeatedDocument | ncclient_3/src/utils.rs:63-80 | `<r><c>1</c><c>2</c></r>` decodes to `{"r": {"c": ["1", "2"]}}` |
| XmlDecodeLemmas.AttributedDocument | ncclient_3/src/utils.rs:55-62 | `<v present="true">5</v>` decodes to `{"v": {"@present": "true", "#text": "5"}}` |
| Netconf.LengthField | ncclient_3/src/netconf.rs:74 | the chunk header carries the payload's byte length as a canonical decimal |
| Netconf.UnchunkChunk | ncclient_3/src/netconf.rs:74 | reading back the chunk (header, that many bytes, end-of-chunks line) recovers the payload |
| Netconf.ChunkUnchunk | ncclient_3/src/netconf.rs:74 | any bytes read back as a payload are exactly that payload's chunk |
| Netconf.FrameRoundTrip | ncclient_3/src/netconf.rs:74 | stripping the greeting and reading the chunk recovers the payload |
| Netconf.DeframeOnlyFrames | ncclient_3/src/netconf.rs:74 | the frame is the only byte string read back as its payload |
| Netconf.FrameOfAbc | ncclient_3/src/netconf.rs:74 | the payload `abc` is framed as the greeting followed by `\n#3\nabc\n##\n` |
| Netconf.HelloShape | ncclient_3/src/netconf.rs:6-11 | the greeting carries the base:1.1 capability, is ASCII, ends with `]]>]]>`, and no shorter prefix ends in either marker |
| Netconf.FirstMarkerIsEom | ncclient_3/src/netconf.rs:29-35 | a body free of `]` and `#` followed by `]]>]]>` ends in a marker for the first time at its very end |
| Netconf.ReadFrom | ncclient_3/src/netconf.rs:22-42 | every pass of the loop consumes at least one read call |
| Netconf.ReadStep | ncclient_3/src/netconf.rs:26-38 | a call delivering a byte appends it, then stops the loop exactly when the text now ends in a marker |
| Netconf.Read | ncclient_3/src/netconf.rs:22-42 | the loop's result and the calls it consumes are those of the specification `ReadFrom` |
| Netconf.ReadFromOutcome | ncclient_3/src/netconf.rs:22-42 | the inductive step of `ReadStopsAtFirstTerminator`, from any point where the text so far has ended in no marker |
| Netconf.ReadStopsAtFirstTerminator | ncclient_3/src/netconf.rs:22-42 | every call but the last delivered a byte without end of file; the result is an error exactly when the last call failed; otherwise it is exactly the delivered text (marker included), no proper prefix of it ends in a marker, and it ends in one unless the channel ran dry or reported end of file |
| Netconf.ReadsThrough | ncclient_3/src/netconf.rs:22-42 | an ASCII message that first ends in a marker at its end is read whole, wherever it sits in the stream |
| Netconf.ReadsFirstMessage | ncclient_3/src/netconf.rs:22-42 | a stream that starts with such a message yields exactly that message on the first read, stopping right after it |
| Netconf.PeerReadsGreetingFirst | ncclient_3/src/netconf.rs:6-11 | a peer running the same loop over the frame stops right after the greeting, before the chunk header |
| Netconf.ChunkReadShape | ncclient_3/src/netconf.rs:29-35 | a reply chunk whose body has no `]` or `#` first ends in a marker at its `##`, one byte before its end |
| Netconf.ServerExchange | ncclient_3/src/netconf.rs:71-76 | against a server sending a greeting and one chunk, the first read returns the greeting and the second returns the chunk without its final line feed |
| Netconf.Exchange | ncclient_3/src/netconf.rs:71-76 | a failed greeting read or write sends nothing more and fails; otherwise the frame (or the prefix the channel accepted) is sent and the result is the read from where the greeting read stopped |
| Components.ChannelRecords | ncclient_3/src/routes/get_json.rs:116-124 | one record per channel in order, exactly when no channel's state panics |
| Components.CopyEntries | ncclient_3/src/routes/get_json.rs:119-121 | copying a state's entries one by one yields exactly that state |
| Components.ChannelRecordOf | ncclient_3/src/routes/get_json.rs:117-123 | building one channel's record yields the specification `ChannelRecord` |
| Components.ChannelsList | ncclient_3/src/routes/get_json.rs:111-137 | the channel loop yields the records of the normalised channel list, or its panic |
| Components.CopyStateFacts | ncclient_3/src/routes/get_json.rs:105-108 | the leaves are added exactly when all are found, with their values and nothing else changed; otherwise the panic names a missing leaf |
| Components.CopyStateFirstMissing | ncclient_3/src/routes/get_json.rs:105-108 | the panic names the first missing leaf in the order read |
| Components.WithChannelsFacts | ncclient_3/src/routes/get_json.rs:110-141 | adding the channels panics exactly when a channel's state is not an object, sets `channel` exactly when there is a channel, to one record per channel in order, and changes nothing else |
| Components.PresentRecordOfFacts | ncclient_3/src/routes/get_json.rs:103-141 | a present transceiver's record holds exactly the name, "PRESENT", the four leaves found, and `channel` exactly when there is a channel |
| Components.JsonComponent | ncclient_3/src/routes/get_json.rs:99-146 | building one component's record step by step yields the specification `ComponentRecord` |
| Components.ComponentRecordPanics | ncclient_3/src/routes/get_json.rs:101-108 | a missing name panics first, then a missing presence leaf, then the first missing inventory leaf; no other panic exists besides a non-object channel state |
| Components.FirstMissingLeafPanics | ncclient_3/src/routes/get_json.rs:105-108 | for a present transceiver, the first missing inventory leaf is the panic |
| Components.PresentPanics | ncclient_3/src/routes/get_json.rs:105-141 | a present transceiver's record panics only for a missing inventory leaf or a non-object channel state |
| Components.NotPresentRecord | ncclient_3/src/routes/get_json.rs:143-145 | a component whose presence leaf is not "PRESENT" gives exactly its name and "NOT_PRESENT" |
| Components.PresentRecord | ncclient_3/src/routes/get_json.rs:103-108 | a present component's record has its name, "PRESENT" and the four inventory leaves as found under `transceiver/state` |
| Components.PresentRecordKeys | ncclient_3/src/routes/get_json.rs:103-108 | apart from `channel`, a present component's record has exactly the name, presence and the four inventory keys |
| Components.ChannelKey | ncclient_3/src/routes/get_json.rs:110-141 | `channel` is in a record exactly when the transceiver is present and has at least one channel, and then holds one record per channel in order |
| Components.ComponentRecordsFacts | ncclient_3/src/routes/get_json.rs:99-147 | one record per component in order, or else the panic of the first component that panics |
| Components.ComponentsList | ncclient_3/src/routes/get_json.rs:89-148 | the component loop yields the records of the corrected component list, or the first panic; a lone component object is taken as a list of one, where lines 92-94 as written take none |
| Components.ChannelsUndoPromotion | ncclient_3/src/routes/get_json.rs:113-137 | channels decoded from sibling `<channel>` elements, lone or promoted to an array, are recovered exactly and in order |
| Components.ComponentsUndoPromotion | ncclient_3/src/routes/get_json.rs:92-94 | with the correction, components decoded from sibling `<component>` elements, a lone one included, are recovered exactly and in order |
| Components.LoneComponentDropped | ncclient_3/src/routes/get_json.rs:92-94 | as written, a lone decoded component yields no components, while two or more are all kept |
| Components.ComponentListAgrees | ncclient_3/src/routes/get_json.rs:92-94 | the corrected list differs from the one as written exactly when the component entry is a lone object |
| Components.LoneComponentReplyShape | ncclient_3/src/routes/get_json.rs:92-94 | the one-component reply (one `<component>` with a name and a NOT_PRESENT transceiver) has the event shape the finding is stated for |
| Components.LoneComponentReply | ncclient_3/src/routes/get_json.rs:92-94 | for the decoded one-component reply, the code as written produces no records, while the corrected list produces that component's NOT_PRESENT record |

## Findings

| source | as written | input that shows it | evidently intended | confidence | as-written member | corrected member |
|---|---|---|---|---|---|---|
| ncclient_3/src/routes/get_json.rs:92-94 | the components are taken only when `/rpc-reply/data/components/component` is an array | a reply whose `<components>` holds exactly one `<component>`: the decoder stores a lone element as an object, so the handler reports no components at all | a lone component yields its record, as a lone channel does at lines 126-135 | medium, not executed | Components.LoneComponentReply | Components.ComponentsUndoPromotion |

`Components.ComponentListAsWritten` models lines 92-94 as written.
`Components.ComponentList` is the corrected list, and `Components.ComponentsList`
and `Components.Extract` use it.

## Left out

- SSH and TCP: connecting, the handshake, password authentication, the subsystem request, and the teardown (`netconf.rs:64-70, 78-81`). These are network I/O. The channel is a sequence of read outcomes plus one write outcome.
- Netconf.Exchange: the write count that `channel.write` returns is ignored by the source. The model sends the prefix the channel accepted and does not retry.
- Netconf.Exchange: a failure during teardown, and the teardown being skipped after an earlier failure, are not modelled. Teardown is outside the model.
- `String::from_utf8_lossy` is modelled for one byte only, because the loop reads one byte at a time. A byte below 0x80 is kept and any other byte becomes U+FFFD.
- Bytes are characters up to U+00FF. The payload is given as bytes, so its length is its byte length, as `payload.len()` counts.
- The greeting's line breaks are line feeds. The Rust compiler normalises the source file's CRLF line endings inside string literals.
- Chunk-size validity from section 4.2 of RFC 6242 is not claimed. A zero-length payload is framed as `#0` because the source does not check it.
- Components.ComponentsList: the loop runs over the corrected component list, so a reply with one `<component>` gives that component's record. Lines 92-94 as written give no records for it; `Components.ComponentListAsWritten` and `Components.LoneComponentReply` model that behaviour (see "## Findings").
- XML tokenising, text unescaping and whitespace trimming (`utils.rs:25, 84, 89-90, 139`) are left to the tokenizer. The model reads events whose text is already unescaped and trimmed.
- A text or CDATA section whose unescaping fails is dropped by the source (`utils.rs:84, 89-90`). The model feeds such an event as `Other`, which is skipped the same way.
- Attribute values are taken as written: the source does not unescape them (`utils.rs:36`), so `a="x&amp;y"` gives `"@a": "x&amp;y"`. An `Attr` value is that raw text.
- The attribute iterator's duplicate check is modelled by `XmlDecode.Yielded`: an attribute whose name already occurred in the tag comes out as an error, which `utils.rs:34` skips. Other attribute errors (malformed syntax) are tokenizer errors and are not modelled.
- Names and values that are not valid UTF-8 are left out; model names are strings. Element names are always valid, because `to_json` reads from a `&str`, so the branch skipped at `utils.rs:27` cannot be taken. Attribute keys and values sliced from the same text are valid for the same reason (`utils.rs:35-39`).
- Self-closing elements, declarations, comments, processing instructions and tokenizer errors are one `Other` event. All of them are skipped.
- Map insertion order is not modelled. serde_json's default map is ordered by key, and a Dafny map holds the same information.
- Pointer strings are not split and `~` escapes are not handled. Paths are given as token lists, and the source's paths contain no `~` or empty tokens.
- Metric updates, float parsing, the HTTP handlers and the host map (`get_json.rs:19-86, 150-273`) are left out. They are Prometheus and actix glue, not part of this core.
