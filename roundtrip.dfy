/**
 * The two halves of the system meet at the MIME tree: the message `send_spoofed_email`
 * builds, once it reaches the capture server and parses back to the same tree, is reported
 * as its subject, its body text and its attachment's name and size.
 */
module RoundTrip {
  import opened Wrappers
  import opened Text
  import opened Mime
  import opened Dispatch
  import opened Capture

  /**
   * The line the capture server logs for an attachment read from `path`: the basename as
   * `get_filename` reads it back, stripped of surrounding whitespace.
   */
  function AttachmentLine(path: string, data: bytes): Entry
  {
    var name := Strip(Basename(path));
    if name != "" then AttachmentPart(name, OctetStream, |data|)
    else OtherPart(OctetStream, |data|)
  }

  /** Sequence concatenation regrouped; kept apart because the report's context makes it slow inline. */
  lemma Regroup<T>(a: seq<T>, b: seq<T>, c: seq<T>, d: seq<T>)
    ensures a + (b + (c + [])) + d == a + b + c + d
  {
  }

  /** The leaves of a built message: the text body, then the attachment if one was asked for. */
  function BuiltLeaves(body: string, attachmentPath: Option<string>, files: map<string, bytes>,
                       encode: (string, string) -> bytes): seq<Part>
    requires WantsAttachment(attachmentPath) ==> attachmentPath.value in files
  {
    [TextLeaf(body, encode)] +
    if WantsAttachment(attachmentPath) then [AttachmentLeaf(attachmentPath.value, files[attachmentPath.value])] else []
  }

  /** The lines the capture server is expected to log for those leaves. */
  function ExpectedLines(body: string, attachmentPath: Option<string>, files: map<string, bytes>): seq<Entry>
    requires WantsAttachment(attachmentPath) ==> attachmentPath.value in files
  {
    [TextPart(body)] +
    if WantsAttachment(attachmentPath) then [AttachmentLine(attachmentPath.value, files[attachmentPath.value])] else []
  }

  lemma BuiltMessageLeaves(sender: string, recipient: string, subject: string, body: string,
                           attachmentPath: Option<string>, files: map<string, bytes>,
                           encode: (string, string) -> bytes)
    requires BuildMessage(sender, recipient, subject, body, attachmentPath, files, encode).Some?
    ensures var m := BuildMessage(sender, recipient, subject, body, attachmentPath, files, encode).value;
            m.root.Container? &&
            Leaves(m.root) == BuiltLeaves(body, attachmentPath, files, encode) &&
            m.headers == MessageHeaders(sender, recipient, subject)
  {
    var m := BuildMessage(sender, recipient, subject, body, attachmentPath, files, encode).value;
    var leaves := BuiltLeaves(body, attachmentPath, files, encode);
    if WantsAttachment(attachmentPath) {
      var path := attachmentPath.value;
      assert leaves == [TextLeaf(body, encode), AttachmentLeaf(path, files[path])];
    } else {
      assert leaves == [TextLeaf(body, encode)];
    }
    assert m.root == Container(MultipartMixed, leaves);
    LeavesOfLeaves(leaves);
  }

  /** The capture server logs an attached file under its stripped basename, with its size. */
  lemma AttachmentDescribed(path: string, data: bytes, decode: Decoder)
    ensures DescribeLeaf(AttachmentLeaf(path, data), decode) == Success(AttachmentLine(path, data))
  {
    var p := AttachmentLeaf(path, data);
    assert Filename(p) == Some(Strip(Basename(path)));
  }

  /** With a round-tripping codec, the body leaf is logged as exactly the body, and the attachment by name and size. */
  lemma BuiltLeavesDescribed(body: string, attachmentPath: Option<string>, files: map<string, bytes>,
                             encode: (string, string) -> bytes, decode: Decoder)
    requires WantsAttachment(attachmentPath) ==> attachmentPath.value in files
    requires decode(BodyCharset(body), encode(BodyCharset(body), body)) == Some(body)
    ensures var leaves := BuiltLeaves(body, attachmentPath, files, encode);
            (forall k | 0 <= k < |leaves| :: leaves[k].Leaf?) &&
            DescribeLeaves(leaves, decode) == Listing(ExpectedLines(body, attachmentPath, files), None)
  {
    var leaves := BuiltLeaves(body, attachmentPath, files, encode);
    assert DescribeLeaf(leaves[0], decode) == Success(TextPart(body));
    if WantsAttachment(attachmentPath) {
      var path := attachmentPath.value;
      var line := AttachmentLine(path, files[path]);
      AttachmentDescribed(path, files[path], decode);
      assert leaves[1] == AttachmentLeaf(path, files[path]);
      assert leaves[1..][1..] == [];
      assert DescribeLeaves(leaves[1..], decode) == Listing([line], None);
      assert ExpectedLines(body, attachmentPath, files) == [TextPart(body), line];
    } else {
      assert leaves[1..] == [];
    }
  }

  /**
   * Building then capturing: given that serialising and parsing give back the built tree
   * and that the body's charset codec round-trips, the report holds the subject, exactly the
   * body text, and for an attachment its basename and its length in bytes.
   */
  lemma BuiltMessageCaptured(sender: string, recipient: string, subject: string, body: string,
                             attachmentPath: Option<string>, files: map<string, bytes>,
                             encode: (string, string) -> bytes, decode: Decoder,
                             envelope: Envelope, parse: bytes -> Result<Message, string>,
                             utf8: bytes -> string)
    requires BuildMessage(sender, recipient, subject, body, attachmentPath, files, encode).Some?
    requires parse(envelope.content) ==
             Success(BuildMessage(sender, recipient, subject, body, attachmentPath, files, encode).value)
    requires decode(BodyCharset(body), encode(BodyCharset(body), body)) == Some(body)
    ensures Report(envelope, parse, decode, utf8) ==
              Preamble(envelope) + [SubjectLine(Some(subject)), ContentHeading] +
              ExpectedLines(body, attachmentPath, files) + [Footer]
  {
    var m := BuildMessage(sender, recipient, subject, body, attachmentPath, files, encode).value;
    BuiltMessageLeaves(sender, recipient, subject, body, attachmentPath, files, encode);
    HeadersFound(sender, recipient, subject);
    BuiltLeavesDescribed(body, attachmentPath, files, encode, decode);
    var lines := ExpectedLines(body, attachmentPath, files);
    assert GetHeader(m.headers, "Subject") == Some(subject);
    var l := DescribeLeaves(Leaves(m.root), decode);
    assert l == Listing(lines, None);
    var pre, head := Preamble(envelope), [SubjectLine(Some(subject)), ContentHeading];
    assert Report(envelope, parse, decode, utf8) == pre + (head + (lines + [])) + [Footer];
    Regroup(pre, head, lines, [Footer]);
  }
}
