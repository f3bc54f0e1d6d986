/** NETCONF session framing of ncclient_3/src/netconf.rs: the greeting, the
    outgoing frame, the terminator-scanning read loop and the order of
    operations in `get`.

    Bytes are characters no greater than U+00FF, so that string literals
    serve as byte strings. The SSH channel is an abstract source of read
    outcomes and a sink for one write. */
module Netconf {

  import Decimal
  import opened Wrappers

  type Byte = c: char | c <= '\U{FF}'

  /** End-of-message marker of the legacy framing (section 4.3 of RFC 6242). */
  const EOM: seq<Byte> := "]]>]]>"

  /** End-of-chunks marker of the chunked framing (section 4.2 of RFC 6242). */
  const CHUNK_END: seq<Byte> := "##"

  /** Base namespace of NETCONF messages (section 8.1 of RFC 6241). */
  const BASE_NS: seq<Byte> := "urn:ietf:params:" + "xml:ns:netconf:" + "base:1.0"

  /** The capability that announces chunked framing (section 8.1 of RFC 6241). */
  const BASE_1_1: seq<Byte> := "urn:ietf:params:" + "netconf:base:1.1"

  const HELLO_OPEN: seq<Byte> := "<hello xmlns=\"" + BASE_NS + "\">\n  " + "<capabilities>\n" + "    <capability>"
  const HELLO_CLOSE: seq<Byte> := "</capability>\n" + "  </capabilities>" + "\n</hello>\n"

  /** The client's `<hello>` document announcing base:1.1. */
  const HELLO_BODY: seq<Byte> := HELLO_OPEN + BASE_1_1 + HELLO_CLOSE

  /** The client's greeting: the `<hello>`, then the end-of-message marker. */
  const HELLO: seq<Byte> := HELLO_BODY + EOM

  predicate EndsWith<T(==)>(s: seq<T>, suffix: seq<T>)
  {
    |suffix| <= |s| && s[|s| - |suffix|..] == suffix
  }

  // -----------------------------------------------------------------------
  // The outgoing frame (netconf.rs:74)
  // -----------------------------------------------------------------------

  /** The decimal rendering of a length, as bytes. */
  function LengthField(n: nat): (r: seq<Byte>)
    ensures Decimal.Canonical(r)
  {
    Decimal.Render(n)
  }

  /** The request as one chunk of the chunked framing, followed by the
      end-of-chunks marker. */
  function Chunk(payload: seq<Byte>): seq<Byte>
  {
    "\n#" + LengthField(|payload|) + "\n" + payload + "\n##\n"
  }

  /** The bytes written to the channel: the greeting, then the chunk. */
  function Frame(payload: seq<Byte>): seq<Byte>
  {
    HELLO + Chunk(payload)
  }

  /** Number of leading decimal digits. */
  function DigitRun(s: seq<Byte>): (n: nat)
    ensures n <= |s|
    ensures Decimal.AllDigits(s[..n])
    ensures n < |s| ==> !Decimal.IsDigit(s[n])
  {
    if s == [] || !Decimal.IsDigit(s[0]) then 0
    else
      var n := DigitRun(s[1..]);
      assert s[..n + 1] == [s[0]] + s[1..][..n];
      n + 1
  }

  /** The reading of one chunk followed by the end-of-chunks marker: a header
      with a canonical length, exactly that many bytes, and the end line. */
  function Unchunk(wire: seq<Byte>): Option<seq<Byte>>
  {
    if |wire| < 2 || wire[..2] != "\n#" then None
    else
      var rest := wire[2..];
      var d := DigitRun(rest);
      var digits := rest[..d];
      if !Decimal.Canonical(digits) || d == |rest| || rest[d] != '\n' then None
      else
        var body := rest[d + 1..];
        var n := Decimal.Value(digits);
        if |body| != n + 4 || body[n..] != "\n##\n" then None
        else Some(body[..n])
  }

  /** The reading of a frame by a peer: the greeting, then the chunk. */
  function Deframe(wire: seq<Byte>): Option<seq<Byte>>
  {
    if |wire| < |HELLO| || wire[..|HELLO|] != HELLO then None else Unchunk(wire[|HELLO|..])
  }

  lemma DigitRunOfField(digits: seq<Byte>, tail: seq<Byte>)
    requires Decimal.AllDigits(digits) && tail != [] && !Decimal.IsDigit(tail[0])
    ensures DigitRun(digits + tail) == |digits|
    decreases |digits|
  {
    if digits == [] {
      assert digits + tail == tail;
    } else {
      assert (digits + tail)[1..] == digits[1..] + tail;
      DigitRunOfField(digits[1..], tail);
    }
  }

  lemma UnchunkChunk(payload: seq<Byte>)
    ensures Unchunk(Chunk(payload)) == Some(payload)
  {
    var wire := Chunk(payload);
    var digits := LengthField(|payload|);
    var tail := "\n" + payload + "\n##\n";
    var rest := digits + tail;
    assert wire == "\n#" + rest;
    assert wire[..2] == "\n#";
    assert wire[2..] == rest;
    DigitRunOfField(digits, tail);
    assert rest[..|digits|] == digits;
    assert rest[|digits| + 1..] == payload + "\n##\n";
    Decimal.ValueOfRender(|payload|);
  }

  /** A byte string cut at its header, length line and end line is their
      concatenation. */
  lemma Reassemble(wire: seq<Byte>, d: nat, payload: seq<Byte>)
    requires 2 + d < |wire| && wire[..2] == "\n#" && wire[2 + d] == '\n'
    requires wire[2 + d + 1..] == payload + "\n##\n"
    ensures wire == "\n#" + wire[2..2 + d] + "\n" + payload + "\n##\n"
  {
    assert wire == wire[..2] + wire[2..2 + d] + [wire[2 + d]] + wire[2 + d + 1..];
  }

  lemma ChunkUnchunk(wire: seq<Byte>, payload: seq<Byte>)
    requires Unchunk(wire) == Some(payload)
    ensures wire == Chunk(payload)
  {
    var rest := wire[2..];
    var d := DigitRun(rest);
    var digits := rest[..d];
    var body := rest[d + 1..];
    var n := Decimal.Value(digits);
    assert body == payload + "\n##\n" by {
      assert body == body[..n] + body[n..];
    }
    assert rest[d + 1..] == wire[2 + d + 1..];
    Reassemble(wire, d, payload);
    assert wire[2..2 + d] == digits;
    Decimal.RenderOfValue(digits);
  }

  /** A peer that reads the frame gets the payload back. */
  lemma FrameRoundTrip(payload: seq<Byte>)
    ensures Deframe(Frame(payload)) == Some(payload)
  {
    var wire := Frame(payload);
    assert wire[..|HELLO|] == HELLO;
    assert wire[|HELLO|..] == Chunk(payload);
    UnchunkChunk(payload);
  }

  /** The frame is the only byte string a peer reads as this payload: a
      frame and its payload determine each other. */
  lemma DeframeOnlyFrames(wire: seq<Byte>, payload: seq<Byte>)
    requires Deframe(wire) == Some(payload)
    ensures wire == Frame(payload)
  {
    ChunkUnchunk(wire[|HELLO|..], payload);
    assert wire == wire[..|HELLO|] + wire[|HELLO|..];
  }

  /** The frame for the body "abc". */
  lemma FrameOfAbc()
    ensures Frame("abc") == HELLO + "\n#3\nabc\n##\n"
  {
    assert LengthField(3) == "3";
  }

  // -----------------------------------------------------------------------
  // The read loop (netconf.rs:22-42)
  // -----------------------------------------------------------------------

  /** The outcome of one `channel.read` into a one-byte buffer, with the
      channel's end-of-file flag as `channel.eof()` reports it afterwards. */
  datatype ReadCall =
    | OneByte(b: Byte, eof: bool)
    | NoByte
    | ReadFailed

  datatype IoError = IoError

  /** The channel's reads from the cursor on; past the recorded ones the
      channel yields nothing. */
  function CallAt(calls: seq<ReadCall>, i: nat): ReadCall
  {
    if i < |calls| then calls[i] else NoByte
  }

  /** `String::from_utf8_lossy` of a single byte: ASCII is kept, any other
      byte is an incomplete sequence and becomes U+FFFD. */
  function Lossy(b: Byte): char
  {
    if b < '\U{80}' then b else '\U{FFFD}'
  }

  /** The text read so far ends in one of the two markers the loop stops at. */
  predicate Terminated(s: string)
  {
    EndsWith(s, EOM) || EndsWith(s, CHUNK_END)
  }

  /** No proper prefix of `s` ends in a marker. */
  predicate ProperPrefixesOpen(s: string)
  {
    forall m {:trigger Terminated(s[..m])} :: 0 <= m < |s| ==> !Terminated(s[..m])
  }

  datatype ReadDone = ReadDone(result: Result<string, IoError>, next: nat)

  /** The read loop from cursor `i`, having accumulated `acc`. */
  function ReadFrom(calls: seq<ReadCall>, i: nat, acc: string): (d: ReadDone)
    ensures d.next > i
    decreases |calls| - i
  {
    match CallAt(calls, i)
    case ReadFailed => ReadDone(Err(IoError), i + 1)
    case NoByte => ReadDone(Ok(acc), i + 1)
    case OneByte(b, eof) =>
      var acc' := acc + [Lossy(b)];
      if Terminated(acc') || eof then ReadDone(Ok(acc'), i + 1)
      else ReadFrom(calls, i + 1, acc')
  }

  /** `read`: one byte per call, stopping after a marker, a read of zero
      bytes or the end of the channel; a failed read discards what was read. */
  method Read(calls: seq<ReadCall>, start: nat) returns (r: Result<string, IoError>, next: nat)
    ensures ReadDone(r, next) == ReadFrom(calls, start, [])
  {
    var result: string := [];
    var i := start;
    var done := false;
    r := Ok([]);
    while !done
      invariant start <= i
      invariant !done ==> ReadFrom(calls, i, result) == ReadFrom(calls, start, [])
      invariant done ==> ReadDone(r, i) == ReadFrom(calls, start, [])
      decreases !done, |calls| - i
    {
      match CallAt(calls, i) {
        case ReadFailed =>
          r := Err(IoError);
          done := true;
        case NoByte =>
          r := Ok(result);
          done := true;
        case OneByte(b, eof) =>
          result := result + [Lossy(b)];
          if EndsWith(result, EOM) {
            r := Ok(result);
            done := true;
          } else if EndsWith(result, CHUNK_END) {
            r := Ok(result);
            done := true;
          } else if eof {
            r := Ok(result);
            done := true;
          }
      }
      i := i + 1;
    }
    next := i;
  }

  /** The text the reads from `from` up to (not including) `to` deliver. */
  function Collected(calls: seq<ReadCall>, from: nat, to: nat): string
    decreases to
  {
    if to <= from then []
    else
      Collected(calls, from, to - 1) +
      (match CallAt(calls, to - 1) case OneByte(b, _) => [Lossy(b)] case _ => [])
  }

  /** The calls from `from` up to (not including) `to` each delivered a byte
      and none reported end of file. */
  predicate AllContinue(calls: seq<ReadCall>, from: nat, to: nat)
  {
    forall k :: from <= k < to ==> CallAt(calls, k).OneByte? && !CallAt(calls, k).eof
  }

  /** What one run of the read loop from `start` promises, given how it ended:
      every call before the last one delivered a byte; the last call failed
      exactly when the result is an error; an ok result is exactly what the
      calls delivered, no proper prefix of it ends in a marker, and it ends
      in one unless the last call delivered nothing or reported end of file. */
  predicate ReadOutcome(calls: seq<ReadCall>, start: nat, d: ReadDone)
  {
    && start < d.next
    && AllContinue(calls, start, d.next - 1)
    && (d.result.Err? <==> CallAt(calls, d.next - 1).ReadFailed?)
    && (d.result.Ok? ==>
          && d.result.value == Collected(calls, start, d.next)
          && ProperPrefixesOpen(d.result.value)
          && (Terminated(d.result.value) || CallAt(calls, d.next - 1).NoByte? || CallAt(calls, d.next - 1).eof))
  }

  lemma {:induction false} ReadFromOutcome(calls: seq<ReadCall>, start: nat, i: nat, acc: string)
    requires start <= i
    requires acc == Collected(calls, start, i)
    requires AllContinue(calls, start, i)
    requires ProperPrefixesOpen(acc) && !Terminated(acc)
    ensures ReadOutcome(calls, start, ReadFrom(calls, i, acc))
    decreases |calls| - i
  {
    match CallAt(calls, i)
    case ReadFailed =>
    case NoByte =>
      assert Collected(calls, start, i + 1) == acc + [];
    case OneByte(b, eof) =>
      var acc' := acc + [Lossy(b)];
      assert Collected(calls, start, i + 1) == acc';
      OpenGrows(acc, Lossy(b));
      if !(Terminated(acc') || eof) {
        ReadFromOutcome(calls, start, i + 1, acc');
      }
  }

  /** Appending one character to an open text keeps its proper prefixes open. */
  lemma OpenGrows(acc: string, c: char)
    requires ProperPrefixesOpen(acc) && !Terminated(acc)
    ensures ProperPrefixesOpen(acc + [c])
  {
    var acc' := acc + [c];
    forall m | 0 <= m < |acc'|
      ensures !Terminated(acc'[..m])
    {
      if m < |acc| {
        assert acc'[..m] == acc[..m];
      } else {
        assert acc'[..m] == acc;
      }
    }
  }

  /** The read loop stops at the first marker: it consumes calls until the
      one that ends it, fails exactly when that call failed, and otherwise
      returns exactly the delivered text, the shortest that ends in a marker
      unless the channel ran dry or reported end of file (not an error). */
  lemma ReadStopsAtFirstTerminator(calls: seq<ReadCall>, start: nat)
    ensures ReadOutcome(calls, start, ReadFrom(calls, start, []))
  {
    var empty: string := [];
    assert Collected(calls, start, start) == empty;
    assert !Terminated(empty);
    ReadFromOutcome(calls, start, start, empty);
  }

  /** A byte stream delivered one byte per read, without end of file. */
  function Delivered(bytes: seq<Byte>): (calls: seq<ReadCall>)
    ensures |calls| == |bytes|
    ensures forall k :: 0 <= k < |bytes| ==> calls[k] == OneByte(bytes[k], false)
  {
    seq(|bytes|, k requires 0 <= k < |bytes| => OneByte(bytes[k], false))
  }

  predicate Ascii(s: seq<Byte>)
  {
    forall k :: 0 <= k < |s| ==> s[k] < '\U{80}'
  }

  /** One read call that delivers a byte without end of file. */
  lemma ReadStep(calls: seq<ReadCall>, i: nat, acc: string, b: Byte)
    requires CallAt(calls, i) == OneByte(b, false)
    ensures ReadFrom(calls, i, acc) ==
              if Terminated(acc + [Lossy(b)]) then ReadDone(Ok(acc + [Lossy(b)]), i + 1)
              else ReadFrom(calls, i + 1, acc + [Lossy(b)])
  {
  }

  lemma PrefixGrows(g: seq<Byte>, i: nat)
    requires i < |g| && Ascii(g)
    ensures g[..i] + [Lossy(g[i])] == g[..i + 1]
  {
  }

  /** The calls from `base` on deliver the bytes of `g`, one per call,
      without end of file. */
  predicate DeliversAt(calls: seq<ReadCall>, base: nat, g: seq<Byte>)
  {
    forall k :: 0 <= k < |g| ==> CallAt(calls, base + k) == OneByte(g[k], false)
  }

  lemma DeliveredInside(pre: seq<Byte>, g: seq<Byte>, rest: seq<Byte>)
    ensures DeliversAt(Delivered(pre + g + rest), |pre|, g)
  {
    forall k | 0 <= k < |g|
      ensures CallAt(Delivered(pre + g + rest), |pre| + k) == OneByte(g[k], false)
    {
      assert (pre + g + rest)[|pre| + k] == g[k];
    }
  }

  /** A message `g` that is ASCII and ends in a marker for the first time at
      its end is read whole, wherever it sits in the stream. */
  lemma {:induction false} ReadsThrough(calls: seq<ReadCall>, base: nat, g: seq<Byte>, i: nat)
    requires Ascii(g) && ProperPrefixesOpen(g) && Terminated(g) && i < |g|
    requires DeliversAt(calls, base, g)
    ensures ReadFrom(calls, base + i, g[..i]) == ReadDone(Ok(g), base + |g|)
    decreases |g| - i
  {
    assert CallAt(calls, base + i) == OneByte(g[i], false);
    PrefixGrows(g, i);
    ReadStep(calls, base + i, g[..i], g[i]);
    if i + 1 < |g| {
      assert !Terminated(g[..i + 1]);
      ReadsThrough(calls, base, g, i + 1);
    } else {
      assert g[..i + 1] == g;
    }
  }

  // -----------------------------------------------------------------------
  // The greeting (netconf.rs:6-11)
  // -----------------------------------------------------------------------

  /** Bytes that are ASCII and neither ']' nor '#'. */
  predicate Plain(s: seq<Byte>)
  {
    forall i :: 0 <= i < |s| ==> s[i] < '\U{80}' && s[i] != ']' && s[i] != '#'
  }

  lemma PlainConcat(a: seq<Byte>, b: seq<Byte>)
    requires Plain(a) && Plain(b)
    ensures Plain(a + b)
  {
  }

  // Each literal piece of the greeting is short, so that checking it byte
  // by byte stays cheap; the pieces are then joined with `PlainConcat`.

  lemma UrnPlain()
    ensures Plain("urn:ietf:params:")
  {
  }

  lemma BaseNsPlain()
    ensures Plain(BASE_NS)
  {
    UrnPlain();
    assert Plain("xml:ns:netconf:") && Plain("base:1.0");
    PlainConcat("urn:ietf:params:", "xml:ns:netconf:");
    PlainConcat("urn:ietf:params:" + "xml:ns:netconf:", "base:1.0");
  }

  lemma Base11Plain()
    ensures Plain(BASE_1_1)
  {
    UrnPlain();
    assert Plain("netconf:base:1.1");
    PlainConcat("urn:ietf:params:", "netconf:base:1.1");
  }

  lemma OpenPiecesPlain()
    ensures Plain("<hello xmlns=\"") && Plain("\">\n  ")
  {
  }

  lemma CapabilityPiecesPlain()
    ensures Plain("<capabilities>\n") && Plain("    <capability>")
  {
  }

  lemma HelloOpenPlain()
    ensures Plain(HELLO_OPEN)
  {
    BaseNsPlain();
    OpenPiecesPlain();
    CapabilityPiecesPlain();
    var a: seq<Byte> := "<hello xmlns=\"";
    var b: seq<Byte> := "\">\n  ";
    var c: seq<Byte> := "<capabilities>\n";
    var d: seq<Byte> := "    <capability>";
    PlainConcat(a, BASE_NS);
    PlainConcat(a + BASE_NS, b);
    PlainConcat(a + BASE_NS + b, c);
    PlainConcat(a + BASE_NS + b + c, d);
  }

  lemma ClosePiecesPlain()
    ensures Plain("</capability>\n") && Plain("\n</hello>\n")
  {
  }

  lemma CapabilitiesClosePlain()
    ensures Plain("  </capabilities>")
  {
  }

  lemma HelloClosePlain()
    ensures Plain(HELLO_CLOSE)
  {
    ClosePiecesPlain();
    CapabilitiesClosePlain();
    var a: seq<Byte> := "</capability>\n";
    var b: seq<Byte> := "  </capabilities>";
    var c: seq<Byte> := "\n</hello>\n";
    PlainConcat(a, b);
    PlainConcat(a + b, c);
  }

  lemma HelloBodyPlain()
    ensures Plain(HELLO_BODY)
  {
    HelloOpenPlain();
    Base11Plain();
    HelloClosePlain();
    PlainConcat(HELLO_OPEN, BASE_1_1);
    PlainConcat(HELLO_OPEN + BASE_1_1, HELLO_CLOSE);
  }

  /** A plain body followed by the end-of-message marker ends in a marker
      for the first time at its end. */
  lemma {:induction false} FirstMarkerIsEom(body: seq<Byte>)
    requires Plain(body)
    ensures Ascii(body + EOM) && Terminated(body + EOM) && ProperPrefixesOpen(body + EOM)
  {
    var g := body + EOM;
    assert g[|body|..] == EOM;
    assert forall k :: |body| <= k < |g| ==> g[k] == EOM[k - |body|];
    forall m | 0 <= m < |g|
      ensures !Terminated(g[..m])
    {
      var s := g[..m];
      if m >= 6 {
        assert s[m - 6..][0] == g[m - 6];
      }
      if m >= 2 {
        assert s[m - 2..][1] == g[m - 1];
      }
    }
  }

  /** The greeting announces base:1.1, is ASCII, and ends in a marker for the
      first time at its own end-of-message marker. */
  lemma HelloShape()
    ensures HELLO[|HELLO_OPEN|..|HELLO_OPEN| + |BASE_1_1|] == BASE_1_1
    ensures Ascii(HELLO) && EndsWith(HELLO, EOM) && ProperPrefixesOpen(HELLO)
  {
    HelloBodyPlain();
    FirstMarkerIsEom(HELLO_BODY);
    assert HELLO[|HELLO| - |EOM|..] == EOM;
  }

  /** A peer running the same read loop over this client's frame stops right
      after the greeting's end-of-message marker: the greeting and the chunk
      that follows it are read separately. */
  lemma PeerReadsGreetingFirst(payload: seq<Byte>)
    ensures ReadFrom(Delivered(Frame(payload)), 0, []) == ReadDone(Ok(HELLO), |HELLO|)
  {
    HelloShape();
    ReadsFirstMessage(HELLO, Chunk(payload));
  }

  /** A stream that starts with such a message yields it on the first read. */
  lemma ReadsFirstMessage(g: seq<Byte>, rest: seq<Byte>)
    requires Ascii(g) && ProperPrefixesOpen(g) && Terminated(g) && g != []
    ensures ReadFrom(Delivered(g + rest), 0, []) == ReadDone(Ok(g), |g|)
  {
    var empty: seq<Byte> := [];
    assert empty + g + rest == g + rest;
    DeliveredInside(empty, g, rest);
    ReadsThrough(Delivered(g + rest), 0, g, 0);
    assert g[..0] == [];
  }

  /** What the read loop returns for a reply chunk: everything up to the
      end-of-chunks marker, leaving the final line feed unread. */
  function ChunkRead(reply: seq<Byte>): seq<Byte>
  {
    "\n#" + LengthField(|reply|) + "\n" + reply + "\n##"
  }

  /** ASCII, no ']' anywhere, and '#' only at position 1 and in the last
      two positions: the shape of a chunk as the read loop returns it. */
  predicate MarksOnlyAtEnds(g: seq<Byte>)
  {
    forall k :: 0 <= k < |g| ==>
      && g[k] < '\U{80}' && g[k] != ']'
      && (g[k] == '#' ==> k == 1 || k >= |g| - 2)
  }

  lemma ChunkReadMarks(reply: seq<Byte>)
    requires Plain(reply)
    ensures |ChunkRead(reply)| >= 5 && MarksOnlyAtEnds(ChunkRead(reply))
    ensures EndsWith(ChunkRead(reply), CHUNK_END)
  {
    var digits := LengthField(|reply|);
    var head: seq<Byte> := "\n#" + digits + "\n";
    var g := ChunkRead(reply);
    assert g == head + reply + "\n##";
    var n := |g|;
    forall k | 0 <= k < n
      ensures g[k] < '\U{80}' && g[k] != ']'
      ensures g[k] == '#' ==> k == 1 || k >= n - 2
    {
      if k < 2 {
      } else if k < 2 + |digits| {
        assert g[k] == digits[k - 2];
        assert Decimal.IsDigit(digits[k - 2]);
      } else if k < |head| {
        assert g[k] == '\n';
      } else if k < |head| + |reply| {
        assert g[k] == reply[k - |head|];
      } else {
        assert g[k] == "\n##"[k - |head| - |reply|];
      }
    }
    assert g[n - 2..] == "##";
  }

  /** In such a byte string no proper prefix ends in a marker. */
  lemma MarksOnlyAtEndsOpen(g: seq<Byte>)
    requires |g| >= 5 && MarksOnlyAtEnds(g)
    ensures Ascii(g) && ProperPrefixesOpen(g)
  {
    forall m | 0 <= m < |g|
      ensures !Terminated(g[..m])
    {
      var s := g[..m];
      if m >= 6 {
        assert s[m - 6..][0] == g[m - 6];
      }
      if m >= 2 {
        assert s[m - 2..][0] == g[m - 2];
        assert s[m - 2..][1] == g[m - 1];
      }
    }
  }

  lemma ChunkReadShape(reply: seq<Byte>)
    requires Plain(reply)
    ensures Chunk(reply) == ChunkRead(reply) + "\n"
    ensures Ascii(ChunkRead(reply)) && Terminated(ChunkRead(reply)) && ProperPrefixesOpen(ChunkRead(reply))
  {
    ChunkReadMarks(reply);
    MarksOnlyAtEndsOpen(ChunkRead(reply));
  }

  /** A server that greets with `hello` and answers with one chunk holding
      `reply` (no ']' or '#' in it): the first read returns the greeting and
      the second read returns the chunk without its final line feed. */
  lemma ServerExchange(hello: seq<Byte>, reply: seq<Byte>)
    requires Plain(hello) && Plain(reply)
    ensures var calls := Delivered(hello + EOM + Chunk(reply));
      var greeting := ReadFrom(calls, 0, []);
      && greeting == ReadDone(Ok(hello + EOM), |hello + EOM|)
      && ReadFrom(calls, greeting.next, []).result == Ok(ChunkRead(reply))
  {
    var greeting, chunk := hello + EOM, ChunkRead(reply);
    var calls := Delivered(greeting + Chunk(reply));
    FirstMarkerIsEom(hello);
    ChunkReadShape(reply);
    var empty: seq<Byte> := [];
    assert empty + greeting + Chunk(reply) == greeting + Chunk(reply);
    DeliveredInside(empty, greeting, Chunk(reply));
    ReadsThrough(calls, 0, greeting, 0);
    assert greeting + Chunk(reply) == greeting + chunk + "\n";
    DeliveredInside(greeting, chunk, "\n");
    ReadsThrough(calls, |greeting|, chunk, 0);
  }

  // -----------------------------------------------------------------------
  // The exchange (netconf.rs:57-83)
  // -----------------------------------------------------------------------

  /** The outcome of the single `channel.write`: the number of bytes the
      channel accepted, or a failure. */
  datatype WriteCall = Wrote(count: nat) | WriteFailed

  function Min(a: nat, b: nat): nat { if a < b then a else b }

  /** `get` after the channel is open: read the server's greeting and
      discard it, write the greeting and the framed request in one write
      (ignoring how many bytes were accepted), then read the reply from
      where the first read stopped. */
  method Exchange(calls: seq<ReadCall>, write: WriteCall, payload: seq<Byte>)
    returns (r: Result<string, IoError>, sent: seq<Byte>)
    ensures var greeting := ReadFrom(calls, 0, []);
      && (greeting.result.Err? || write.WriteFailed? ==> r.Err? && sent == [])
      && (greeting.result.Ok? && write.Wrote? ==>
            && sent == Frame(payload)[..Min(write.count, |Frame(payload)|)]
            && r == ReadFrom(calls, greeting.next, []).result)
  {
    sent := [];
    var greeting, after := Read(calls, 0);
    if greeting.Err? {
      return Err(greeting.error), sent;
    }
    var frame := Frame(payload);
    match write
    case WriteFailed =>
      r := Err(IoError);
    case Wrote(count) =>
      sent := frame[..Min(count, |frame|)];
      var reply, _ := Read(calls, after);
      r := reply;
  }
}
