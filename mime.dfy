/**
 * An abstract MIME message as Python's `email` package presents it: a tree whose inner
 * nodes are multipart containers (section 5.1 of RFC 2046) and whose leaves carry an
 * already transfer-decoded payload. Serialisation (`as_string`) and parsing
 * (`message_from_bytes`) are not modelled; both sides of the system meet at this tree.
 */
module Mime {
  import opened Wrappers
  import opened Text

  /** A `Content-Disposition` header: its kind and its `filename` parameter, if any. */
  datatype Disposition = Disposition(kind: string, filename: Option<string>)

  datatype Part =
    | Leaf(contentType: string, charset: Option<string>, name: Option<string>,
           disposition: Option<Disposition>, payload: bytes)
    | Container(contentType: string, children: seq<Part>)

  datatype Header = Header(name: string, value: string)

  /** A message: its top-level headers and its body tree. */
  datatype Message = Message(headers: seq<Header>, root: Part)

  /**
   * `part.get_filename()`: the `filename` parameter of `Content-Disposition`, else the
   * `name` parameter of `Content-Type`, with surrounding whitespace stripped.
   */
  function Filename(p: Part): Option<string>
  {
    if p.Container? then None
    else
      var raw := if p.disposition.Some? && p.disposition.value.filename.Some? then p.disposition.value.filename
                 else p.name;
      if raw.Some? then Some(Strip(raw.value)) else None
  }

  /**
   * The disposition's filename wins over the type's name, and only its trimmed middle is
   * kept: a filename of spaces alone reads as the empty name.
   */
  lemma FilenameStripped(p: Part, before: string, name: string, after: string)
    requires p.Leaf? && p.disposition.Some? && p.disposition.value.filename == Some(before + name + after)
    requires AllSpace(before) && AllSpace(after) && Trimmed(name)
    ensures Filename(p) == Some(name)
  {
    StripPadding(before, name, after);
  }

  /** `msg.get(name)`: the value of the first header whose name matches, ignoring ASCII case. */
  function GetHeader(headers: seq<Header>, name: string): (r: Option<string>)
    ensures r.Some? <==> exists k | 0 <= k < |headers| :: LowerAscii(headers[k].name) == LowerAscii(name)
    ensures r.Some? ==>
              exists k | 0 <= k < |headers| ::
                LowerAscii(headers[k].name) == LowerAscii(name) && r.value == headers[k].value &&
                forall j | 0 <= j < k :: LowerAscii(headers[j].name) != LowerAscii(name)
  {
    if headers == [] then None
    else if LowerAscii(headers[0].name) == LowerAscii(name) then Some(headers[0].value)
    else
      var r := GetHeader(headers[1..], name);
      if r.Some? then
        var k :| 0 <= k < |headers[1..]| &&
                 LowerAscii(headers[1..][k].name) == LowerAscii(name) && r.value == headers[1..][k].value &&
                 forall j | 0 <= j < k :: LowerAscii(headers[1..][j].name) != LowerAscii(name);
        assert headers[k + 1] == headers[1..][k];
        r
      else
        r
  }

  /** Looking a header up by a lower-cased name finds the same value as by the name itself. */
  lemma GetHeaderIgnoresCase(headers: seq<Header>, name: string)
    ensures GetHeader(headers, LowerAscii(name)) == GetHeader(headers, name)
  {
    LowerAsciiIdempotent(name);
    if headers != [] {
      GetHeaderIgnoresCase(headers[1..], name);
    }
  }

  /** `msg.walk()`: every node of the tree, the node itself first, then its children's walks in order. */
  function Walk(p: Part): seq<Part>
    decreases p, 1
  {
    match p
    case Leaf(_, _, _, _, _) => [p]
    case Container(_, children) => [p] + WalkAll(children)
  }

  function WalkAll(parts: seq<Part>): seq<Part>
    decreases parts, 0
  {
    if parts == [] then [] else Walk(parts[0]) + WalkAll(parts[1..])
  }

  /** The leaves of the tree, left to right: the reference flattening the capture report follows. */
  function Leaves(p: Part): (r: seq<Part>)
    ensures forall k | 0 <= k < |r| :: r[k].Leaf?
    decreases p, 1
  {
    match p
    case Leaf(_, _, _, _, _) => [p]
    case Container(_, children) => LeavesAll(children)
  }

  function LeavesAll(parts: seq<Part>): (r: seq<Part>)
    ensures forall k | 0 <= k < |r| :: r[k].Leaf?
    decreases parts, 0
  {
    if parts == [] then [] else Leaves(parts[0]) + LeavesAll(parts[1..])
  }

  /** A list of leaves is its own flattening. */
  lemma {:induction false} LeavesOfLeaves(parts: seq<Part>)
    requires forall k | 0 <= k < |parts| :: parts[k].Leaf?
    ensures LeavesAll(parts) == parts
  {
    if parts != [] {
      LeavesOfLeaves(parts[1..]);
      assert parts == [parts[0]] + parts[1..];
    }
  }

  /** The nodes of a walk that are not containers, in walk order (the loop's `continue`). */
  function LeafNodes(nodes: seq<Part>): (r: seq<Part>)
    ensures forall k | 0 <= k < |r| :: r[k].Leaf?
  {
    if nodes == [] then []
    else if nodes[0].Container? then LeafNodes(nodes[1..])
    else [nodes[0]] + LeafNodes(nodes[1..])
  }

  lemma {:induction false} LeafNodesConcat(xs: seq<Part>, ys: seq<Part>)
    ensures LeafNodes(xs + ys) == LeafNodes(xs) + LeafNodes(ys)
  {
    if xs == [] {
      assert xs + ys == ys;
    } else {
      assert (xs + ys)[1..] == xs[1..] + ys;
      LeafNodesConcat(xs[1..], ys);
    }
  }

  /** Skipping the containers of the pre-order walk leaves exactly the leaves, in order. */
  lemma {:induction false} WalkSkippingContainers(p: Part)
    ensures LeafNodes(Walk(p)) == Leaves(p)
    decreases p, 1
  {
    match p
    case Leaf(_, _, _, _, _) =>
    case Container(_, children) =>
      assert ([p] + WalkAll(children))[1..] == WalkAll(children);
      WalkAllSkippingContainers(children);
  }

  lemma {:induction false} WalkAllSkippingContainers(parts: seq<Part>)
    ensures LeafNodes(WalkAll(parts)) == LeavesAll(parts)
    decreases parts, 0
  {
    if parts != [] {
      LeafNodesConcat(Walk(parts[0]), WalkAll(parts[1..]));
      WalkSkippingContainers(parts[0]);
      WalkAllSkippingContainers(parts[1..]);
    }
  }

  /**
   * The content types `MIMEMultipart()`, `MIMEText(_, 'plain')` and `MIMEApplication` use by
   * default, and `text/html`, the second text type the capture server decodes.
   */
  const MultipartMixed := "multipart/mixed"
  const TextPlain := "text/plain"
  const TextHtml := "text/html"
  const OctetStream := "application/octet-stream"

  /**
   * A `MIMEMultipart` object under construction: header assignment appends a header and
   * `attach` appends a child part.
   */
  class MultipartMessage {
    var headers: seq<Header>
    var parts: seq<Part>

    /**
     * `MIMEMultipart()`: a `MIME-Version` header and no parts. Its `Content-Type:
     * multipart/mixed` header is not kept in `headers`: `Snapshot` carries it as the content
     * type of the root container.
     */
    constructor ()
      ensures headers == [Header("MIME-Version", "1.0")] && parts == []
    {
      headers := [Header("MIME-Version", "1.0")];
      parts := [];
    }

    /** `msg[name] = value`. */
    method SetHeader(name: string, value: string)
      modifies this
      ensures headers == old(headers) + [Header(name, value)]
      ensures parts == old(parts)
    {
      headers := headers + [Header(name, value)];
    }

    /** `msg.attach(part)`. */
    method Attach(part: Part)
      modifies this
      ensures parts == old(parts) + [part]
      ensures headers == old(headers)
    {
      parts := parts + [part];
    }

    /** The message as it stands now. */
    function Snapshot(): Message
      reads this
    {
      Message(headers, Container(MultipartMixed, parts))
    }
  }
}
