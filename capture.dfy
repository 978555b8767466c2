/**
 * `SpoofHandler.handle_DATA`: the capture server's report of one inbound envelope. The
 * envelope is always accepted; its content is parsed, and a multipart message is walked
 * leaf by leaf (text decoded, anything else summarised by type and size), a single-part
 * message is decoded whole, and an error falls back to the raw content.
 */
module Capture {
  import opened Wrappers
  import opened Text
  import opened Mime

  /** What the SMTP server hands the handler: `mail_from`, `rcpt_tos` and the raw `content`. */
  datatype Envelope = Envelope(mailFrom: string, rcptTos: seq<string>, content: bytes)

  /**
   * Why the `try:` block raised: the parser failed, or a text part could not be decoded, because
   * its charset is unknown (LookupError) or its codec refuses `errors='replace'` (`idna` does).
   */
  datatype Failure = Unparseable(reason: string) | UndecodablePart(charset: string)

  /** One logged line of the report. */
  datatype Entry =
    | Banner                                   // '--- Received Email ---'
    | Sender(address: string)
    | Recipients(addresses: seq<string>)
    | SubjectLine(subject: Option<string>)
    | ContentHeading                           // 'Email Content:'
    | TextPart(text: string)
    | HtmlPart(html: string)
    | AttachmentPart(filename: string, contentType: string, size: nat)
    | OtherPart(contentType: string, size: nat)
    | WholeContent(text: string)
    | ParseError(failure: Failure)
    | RawHeading                               // 'Raw content:'
    | RawContent(text: string)
    | Footer                                   // '----------------------'

  const Accepted := "250 Message accepted"
  const DefaultCharset := "utf-8"

  /**
   * `payload.decode(charset, errors='replace')`: None when the call raises, because the charset
   * is unknown or its codec refuses `errors='replace'`.
   */
  type Decoder = (string, bytes) -> Option<string>

  /** `part.get_content_charset() or 'utf-8'`. */
  function EffectiveCharset(p: Part): string
    requires p.Leaf?
  {
    if p.charset.Some? && p.charset.value != "" then p.charset.value else DefaultCharset
  }

  /** The report line for one leaf, or the exception decoding it raises. */
  function DescribeLeaf(p: Part, decode: Decoder): (r: Result<Entry, Failure>)
    requires p.Leaf?
    ensures p.contentType == TextPlain || p.contentType == TextHtml ==>
              match decode(EffectiveCharset(p), p.payload)
              case Some(text) => r == Success(if p.contentType == TextPlain then TextPart(text) else HtmlPart(text))
              case None => r == Failure(UndecodablePart(EffectiveCharset(p)))
    ensures p.contentType != TextPlain && p.contentType != TextHtml ==>
              r.Success? && (r.value.AttachmentPart? || r.value.OtherPart?) &&
              r.value.contentType == p.contentType && r.value.size == |p.payload| &&
              (r.value.AttachmentPart? <==> Filename(p).Some? && Filename(p).value != "") &&
              (r.value.AttachmentPart? ==> r.value.filename == Filename(p).value)
  {
    if p.contentType == TextPlain || p.contentType == TextHtml then
      match decode(EffectiveCharset(p), p.payload)
      case Some(text) => Success(if p.contentType == TextPlain then TextPart(text) else HtmlPart(text))
      case None => Failure(UndecodablePart(EffectiveCharset(p)))
    else
      var filename := Filename(p);
      if filename.Some? && filename.value != "" then Success(AttachmentPart(filename.value, p.contentType, |p.payload|))
      else Success(OtherPart(p.contentType, |p.payload|))
  }

  /** Anything but text/plain and text/html is never decoded: its line does not depend on the codec. */
  lemma BinaryNeverDecoded(p: Part, decode1: Decoder, decode2: Decoder)
    requires p.Leaf? && p.contentType != TextPlain && p.contentType != TextHtml
    ensures DescribeLeaf(p, decode1) == DescribeLeaf(p, decode2)
  {
  }

  /** The lines for a run of leaves, up to the first one whose decoding raises. */
  datatype Listing = Listing(entries: seq<Entry>, failure: Option<Failure>)

  function DescribeLeaves(leaves: seq<Part>, decode: Decoder): Listing
    requires forall k | 0 <= k < |leaves| :: leaves[k].Leaf?
  {
    if leaves == [] then Listing([], None)
    else
      match DescribeLeaf(leaves[0], decode)
      case Failure(f) => Listing([], Some(f))
      case Success(e) =>
        var rest := DescribeLeaves(leaves[1..], decode);
        Listing([e] + rest.entries, rest.failure)
  }

  /** Describing is compositional: later leaves are described only when no earlier one raised. */
  lemma {:induction false} DescribeLeavesConcat(xs: seq<Part>, ys: seq<Part>, decode: Decoder)
    requires forall k | 0 <= k < |xs| :: xs[k].Leaf?
    requires forall k | 0 <= k < |ys| :: ys[k].Leaf?
    ensures forall k | 0 <= k < |xs + ys| :: (xs + ys)[k].Leaf?
    ensures DescribeLeaves(xs + ys, decode) ==
              var l := DescribeLeaves(xs, decode);
              if l.failure.Some? then l
              else Listing(l.entries + DescribeLeaves(ys, decode).entries, DescribeLeaves(ys, decode).failure)
  {
    if xs == [] {
      assert xs + ys == ys;
    } else {
      assert (xs + ys)[1..] == xs[1..] + ys;
      DescribeLeavesConcat(xs[1..], ys, decode);
    }
  }

  /** One step of the walk: a container adds nothing, a leaf adds its line or its failure. */
  lemma DescribeStep(visited: seq<Part>, part: Part, decode: Decoder)
    requires DescribeLeaves(LeafNodes(visited), decode).failure.None?
    ensures var before := DescribeLeaves(LeafNodes(visited), decode);
            var after := DescribeLeaves(LeafNodes(visited + [part]), decode);
            if part.Container? then after == before
            else match DescribeLeaf(part, decode)
                 case Success(e) => after == Listing(before.entries + [e], None)
                 case Failure(f) => after == Listing(before.entries, Some(f))
  {
    LeafNodesConcat(visited, [part]);
    DescribeLeavesConcat(LeafNodes(visited), LeafNodes([part]), decode);
    if part.Leaf? {
      assert LeafNodes([part]) == [part];
      assert [part][1..] == [];
    } else {
      assert LeafNodes([part]) == [];
      assert LeafNodes(visited) + [] == LeafNodes(visited);
    }
  }

  /**
   * One line per leaf, in order: the first `n` leaves are described, and either all of them
   * were (no failure) or leaf `n` is the one whose decoding raised.
   */
  lemma {:induction false} LeavesDescribedInOrder(leaves: seq<Part>, decode: Decoder) returns (n: nat)
    requires forall k | 0 <= k < |leaves| :: leaves[k].Leaf?
    ensures var l := DescribeLeaves(leaves, decode);
            n <= |leaves| && |l.entries| == n &&
            (forall k | 0 <= k < n :: DescribeLeaf(leaves[k], decode) == Success(l.entries[k])) &&
            (l.failure.None? <==> n == |leaves|) &&
            (l.failure.Some? ==> DescribeLeaf(leaves[n], decode) == Failure(l.failure.value))
  {
    if leaves == [] {
      n := 0;
    } else if DescribeLeaf(leaves[0], decode).Failure? {
      n := 0;
    } else {
      var m := LeavesDescribedInOrder(leaves[1..], decode);
      n := m + 1;
    }
  }

  function Preamble(envelope: Envelope): seq<Entry>
  {
    [Banner, Sender(envelope.mailFrom), Recipients(envelope.rcptTos)]
  }

  /** The `except` branch: the error, then the whole raw content decoded as UTF-8. */
  function Fallback(failure: Failure, envelope: Envelope, utf8: bytes -> string): seq<Entry>
  {
    [ParseError(failure), RawHeading, RawContent(utf8(envelope.content))]
  }

  /**
   * The full report for an envelope; `parse` is `message_from_bytes` and `utf8` is
   * `bytes.decode('utf8', errors='replace')`.
   */
  function Report(envelope: Envelope, parse: bytes -> Result<Message, string>, decode: Decoder,
                  utf8: bytes -> string): seq<Entry>
  {
    Preamble(envelope) +
    (match parse(envelope.content)
     case Failure(reason) => Fallback(Unparseable(reason), envelope, utf8)
     case Success(msg) =>
       [SubjectLine(GetHeader(msg.headers, "Subject")), ContentHeading] +
       if msg.root.Container? then
         var l := DescribeLeaves(Leaves(msg.root), decode);
         l.entries + (if l.failure.Some? then Fallback(l.failure.value, envelope, utf8) else [])
       else
         [WholeContent(utf8(envelope.content))]) +
    [Footer]
  }

  /**
   * The `for part in msg.walk()` loop of `handle_DATA`: containers are skipped, text parts
   * are decoded with their charset, anything else is logged by filename and size; the loop
   * stops at the first charset that cannot be decoded.
   */
  method LogParts(root: Part, decode: Decoder) returns (entries: seq<Entry>, failure: Option<Failure>)
    ensures Listing(entries, failure) == DescribeLeaves(Leaves(root), decode)
  {
    var nodes := Walk(root);
    entries := [];
    failure := None;
    var i := 0;
    while i < |nodes| && failure.None?
      invariant 0 <= i <= |nodes|
      invariant Listing(entries, failure) == DescribeLeaves(LeafNodes(nodes[..i]), decode)
    {
      var part := nodes[i];
      assert nodes[..i + 1] == nodes[..i] + [part];
      DescribeStep(nodes[..i], part, decode);
      i := i + 1;
      if part.Container? {
        continue;
      }
      var contentType := part.contentType;
      var payload := part.payload;
      var charset := EffectiveCharset(part);
      if contentType == TextPlain {
        match decode(charset, payload) {
          case Some(text) =>
            assert DescribeLeaf(part, decode) == Success(TextPart(text));
            entries := entries + [TextPart(text)];
          case None =>
            assert DescribeLeaf(part, decode) == Failure(UndecodablePart(charset));
            failure := Some(UndecodablePart(charset));
        }
      } else if contentType == TextHtml {
        match decode(charset, payload) {
          case Some(html) =>
            assert DescribeLeaf(part, decode) == Success(HtmlPart(html));
            entries := entries + [HtmlPart(html)];
          case None =>
            assert DescribeLeaf(part, decode) == Failure(UndecodablePart(charset));
            failure := Some(UndecodablePart(charset));
        }
      } else {
        var filename := Filename(part);
        if filename.Some? && filename.value != "" {
          entries := entries + [AttachmentPart(filename.value, contentType, |payload|)];
        } else {
          entries := entries + [OtherPart(contentType, |payload|)];
        }
      }
    }
    assert nodes == nodes[..i] + nodes[i..];
    LeafNodesConcat(nodes[..i], nodes[i..]);
    DescribeLeavesConcat(LeafNodes(nodes[..i]), LeafNodes(nodes[i..]), decode);
    WalkSkippingContainers(root);
  }

  /**
   * `handle_DATA(server, session, envelope)`: logs the report line by line and answers
   * `250 Message accepted` on every path.
   */
  method HandleData(envelope: Envelope, parse: bytes -> Result<Message, string>, decode: Decoder,
                    utf8: bytes -> string)
    returns (reply: string, report: seq<Entry>)
    ensures reply == Accepted
    ensures report == Report(envelope, parse, decode, utf8)
  {
    report := [Banner, Sender(envelope.mailFrom), Recipients(envelope.rcptTos)];
    var failure: Option<Failure> := None;
    match parse(envelope.content) {
      case Failure(reason) =>
        failure := Some(Unparseable(reason));
      case Success(msg) =>
        report := report + [SubjectLine(GetHeader(msg.headers, "Subject")), ContentHeading];
        if msg.root.Container? {
          var entries;
          entries, failure := LogParts(msg.root, decode);
          report := report + entries;
        } else {
          report := report + [WholeContent(utf8(envelope.content))];
        }
    }
    if failure.Some? {
      report := report + [ParseError(failure.value), RawHeading, RawContent(utf8(envelope.content))];
    }
    report := report + [Footer];
    reply := Accepted;
  }

  /**
   * Framing: the banner, the sender and the recipients, in their envelope order, come before
   * any content, the subject comes right after them whenever the content parsed, and the
   * report always ends with the closing rule.
   */
  lemma ReportFraming(envelope: Envelope, parse: bytes -> Result<Message, string>, decode: Decoder,
                      utf8: bytes -> string)
    ensures var r := Report(envelope, parse, decode, utf8);
            |r| >= 5 &&
            r[..3] == [Banner, Sender(envelope.mailFrom), Recipients(envelope.rcptTos)] &&
            r[|r| - 1] == Footer &&
            (parse(envelope.content).Success? ==>
               r[3] == SubjectLine(GetHeader(parse(envelope.content).value.headers, "Subject")) &&
               r[4] == ContentHeading)
  {
  }

  /** A message that is not multipart is reported as its whole raw content, headers included, decoded as UTF-8. */
  lemma SinglePartReportedWhole(envelope: Envelope, parse: bytes -> Result<Message, string>, decode: Decoder,
                                utf8: bytes -> string)
    requires parse(envelope.content).Success? && parse(envelope.content).value.root.Leaf?
    ensures Report(envelope, parse, decode, utf8) ==
              Preamble(envelope) +
              [SubjectLine(GetHeader(parse(envelope.content).value.headers, "Subject")), ContentHeading,
               WholeContent(utf8(envelope.content)), Footer]
  {
  }

  /**
   * A multipart message is reported leaf by leaf in walk order, containers skipped; if a
   * leaf raises, the lines already logged stay and the error and raw content follow.
   */
  lemma MultipartReportedByLeaf(envelope: Envelope, parse: bytes -> Result<Message, string>, decode: Decoder,
                                utf8: bytes -> string) returns (n: nat)
    requires parse(envelope.content).Success? && parse(envelope.content).value.root.Container?
    ensures var msg := parse(envelope.content).value;
            var leaves := Leaves(msg.root);
            var r := Report(envelope, parse, decode, utf8);
            n <= |leaves| && |r| >= 6 + n &&
            (forall k | 0 <= k < n :: DescribeLeaf(leaves[k], decode) == Success(r[5 + k])) &&
            (n == |leaves| ==> |r| == 6 + n) &&
            (n < |leaves| ==>
               DescribeLeaf(leaves[n], decode).Failure? &&
               r[5 + n..] == Fallback(DescribeLeaf(leaves[n], decode).error, envelope, utf8) + [Footer])
  {
    var msg := parse(envelope.content).value;
    n := LeavesDescribedInOrder(Leaves(msg.root), decode);
  }

  /**
   * The envelope is never dropped: when parsing fails, or a part cannot be decoded, the
   * report ends with the error and the raw content decoded as UTF-8.
   */
  lemma FailureKeepsRawContent(envelope: Envelope, parse: bytes -> Result<Message, string>, decode: Decoder,
                               utf8: bytes -> string, failure: Failure)
    requires
      || (failure.Unparseable? && parse(envelope.content) == Failure(failure.reason))
      || (parse(envelope.content).Success? && parse(envelope.content).value.root.Container? &&
          DescribeLeaves(Leaves(parse(envelope.content).value.root), decode).failure == Some(failure))
    ensures var r := Report(envelope, parse, decode, utf8);
            |r| >= 4 && r[|r| - 4..] == [ParseError(failure), RawHeading, RawContent(utf8(envelope.content)), Footer]
  {
  }
}

