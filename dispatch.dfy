/**
 * `send_spoofed_email`: builds a `multipart/mixed` message (headers, a `text/plain` body,
 * at most one attachment) and drives one SMTP session over it. The remote server is a
 * parameter `accepts` saying which commands succeed; any refused command raises inside
 * `smtplib` and the call returns False.
 */
module Dispatch {
  import opened Wrappers
  import opened Text
  import opened Mime
  import opened SmtpConfig

  /** The steps of an SMTP session, in the terms of the `smtplib` calls that cause them. */
  datatype Command =
    | ConnectTls(host: string, port: int)      // smtplib.SMTP_SSL(host, port): TLS from the first byte
    | ConnectPlain(host: string, port: int)    // smtplib.SMTP(host, port)
    | StartTls                                  // server.starttls()
    | Auth(username: string, password: string) // server.login(username, password)
    | MailTransaction(sender: string, recipient: string, message: Message) // server.sendmail(...)
    | Quit                                      // leaving the `with` block: QUIT, then close

  /** What one call produced: its return value and the commands issued, in order. */
  datatype Run = Run(sent: bool, transcript: seq<Command>)

  /** An `smtplib` connection object as the session sees it: every call issues one command. */
  class SmtpClient {
    const accepts: Command -> bool
    var transcript: seq<Command>

    constructor (accepts: Command -> bool)
      ensures this.accepts == accepts && transcript == []
    {
      this.accepts := accepts;
      transcript := [];
    }

    /** Opening the connection; `ok == false` is the constructor raising. */
    method Connect(implicitTls: bool, host: string, port: int) returns (ok: bool)
      modifies this
      ensures var c := if implicitTls then ConnectTls(host, port) else ConnectPlain(host, port);
              transcript == old(transcript) + [c] && ok == accepts(c)
    {
      var c := if implicitTls then ConnectTls(host, port) else ConnectPlain(host, port);
      transcript := transcript + [c];
      ok := accepts(c);
    }

    method Starttls() returns (ok: bool)
      modifies this
      ensures transcript == old(transcript) + [StartTls] && ok == accepts(StartTls)
    {
      transcript := transcript + [StartTls];
      ok := accepts(StartTls);
    }

    method Login(username: string, password: string) returns (ok: bool)
      modifies this
      ensures transcript == old(transcript) + [Auth(username, password)]
      ensures ok == accepts(Auth(username, password))
    {
      transcript := transcript + [Auth(username, password)];
      ok := accepts(Auth(username, password));
    }

    method Sendmail(sender: string, recipient: string, message: Message) returns (ok: bool)
      modifies this
      ensures transcript == old(transcript) + [MailTransaction(sender, recipient, message)]
      ensures ok == accepts(MailTransaction(sender, recipient, message))
    {
      transcript := transcript + [MailTransaction(sender, recipient, message)];
      ok := accepts(MailTransaction(sender, recipient, message));
    }

    /** The `with` block's exit, taken on success and on an exception alike. */
    method Exit()
      modifies this
      ensures transcript == old(transcript) + [Quit]
    {
      transcript := transcript + [Quit];
    }
  }

  /** The charset `MIMEText` picks for a body: `us-ascii` if it encodes as ASCII, else `utf-8`. */
  function BodyCharset(body: string): string
  {
    if IsAscii(body) then "us-ascii" else "utf-8"
  }

  /** `MIMEText(body, 'plain')`; `encode` is the library's charset codec. */
  function TextLeaf(body: string, encode: (string, string) -> bytes): Part
  {
    Leaf(TextPlain, Some(BodyCharset(body)), None, None, encode(BodyCharset(body), body))
  }

  /**
   * `MIMEApplication(data, Name=basename)` with `Content-Disposition: attachment;
   * filename="<basename>"` added.
   */
  function AttachmentLeaf(path: string, data: bytes): Part
  {
    Leaf(OctetStream, None, Some(Basename(path)), Some(Disposition("attachment", Some(Basename(path)))), data)
  }

  /** `if attachment_path:` — neither None nor the empty string. */
  predicate WantsAttachment(attachmentPath: Option<string>)
  {
    attachmentPath.Some? && attachmentPath.value != ""
  }

  /**
   * The message `send_spoofed_email` builds, or None when the attachment cannot be read;
   * `files` holds the readable files and their contents.
   */
  function BuildMessage(sender: string, recipient: string, subject: string, body: string,
                        attachmentPath: Option<string>, files: map<string, bytes>,
                        encode: (string, string) -> bytes): Option<Message>
  {
    var headers := MessageHeaders(sender, recipient, subject);
    if !WantsAttachment(attachmentPath) then
      Some(Message(headers, Container(MultipartMixed, [TextLeaf(body, encode)])))
    else if attachmentPath.value in files then
      var path := attachmentPath.value;
      Some(Message(headers, Container(MultipartMixed, [TextLeaf(body, encode), AttachmentLeaf(path, files[path])])))
    else
      None
  }

  /**
   * Shape of the built message: From, To and Subject verbatim, the text body first, and
   * one attachment exactly when one was asked for, whose `name` and whose
   * `Content-Disposition: attachment` filename are both the path's basename; the build
   * fails exactly when the requested attachment is unreadable.
   */
  lemma MessageShape(sender: string, recipient: string, subject: string, body: string,
                     attachmentPath: Option<string>, files: map<string, bytes>,
                     encode: (string, string) -> bytes)
    ensures var r := BuildMessage(sender, recipient, subject, body, attachmentPath, files, encode);
            r.None? <==> WantsAttachment(attachmentPath) && attachmentPath.value !in files
    ensures var r := BuildMessage(sender, recipient, subject, body, attachmentPath, files, encode);
            r.Some? ==>
              GetHeader(r.value.headers, "From") == Some(sender) &&
              GetHeader(r.value.headers, "To") == Some(recipient) &&
              GetHeader(r.value.headers, "Subject") == Some(subject) &&
              r.value.root.Container? && r.value.root.contentType == MultipartMixed &&
              1 <= |r.value.root.children| <= 2 &&
              r.value.root.children[0] == TextLeaf(body, encode) &&
              (|r.value.root.children| == 2 <==> WantsAttachment(attachmentPath)) &&
              (|r.value.root.children| == 2 ==>
                 var a := r.value.root.children[1];
                 a.Leaf? && a.contentType == OctetStream &&
                 a.name == Some(Basename(attachmentPath.value)) &&
                 a.disposition == Some(Disposition("attachment", Some(Basename(attachmentPath.value)))) &&
                 Filename(a) == Some(Strip(Basename(attachmentPath.value))) &&
                 a.payload == files[attachmentPath.value])
  {
    HeadersFound(sender, recipient, subject);
    if WantsAttachment(attachmentPath) && attachmentPath.value in files {
      var path := attachmentPath.value;
      AttachmentFilename(path, files[path]);
    }
  }

  /** The attachment is named by the path's basename, as `get_filename` reads it back. */
  lemma AttachmentFilename(path: string, data: bytes)
    ensures Filename(AttachmentLeaf(path, data)) == Some(Strip(Basename(path)))
  {
  }

  /** The built headers: MIME-Version first, then From, To and Subject as given. */
  function MessageHeaders(sender: string, recipient: string, subject: string): seq<Header>
  {
    [Header("MIME-Version", "1.0"), Header("From", sender), Header("To", recipient), Header("Subject", subject)]
  }

  /** Each of From, To and Subject reads back as the value it was set to. */
  lemma HeadersFound(sender: string, recipient: string, subject: string)
    ensures var headers := MessageHeaders(sender, recipient, subject);
            GetHeader(headers, "From") == Some(sender) &&
            GetHeader(headers, "To") == Some(recipient) &&
            GetHeader(headers, "Subject") == Some(subject)
  {
    var headers := MessageHeaders(sender, recipient, subject);
    FirstHeaderNamed(headers, 1, "From");
    FirstHeaderNamed(headers, 2, "To");
    FirstHeaderNamed(headers, 3, "Subject");
  }

  /** The header at `k` is the first one with that name. */
  lemma FirstHeaderNamed(headers: seq<Header>, k: nat, name: string)
    requires k < |headers| && headers[k].name == name
    requires forall j | 0 <= j < k :: LowerAscii(headers[j].name) != LowerAscii(name)
    ensures GetHeader(headers, name) == Some(headers[k].value)
  {
  }

  /** How the connection is opened. */
  function Connection(d: SmtpDetails): Command
  {
    if d.useSsl then ConnectTls(d.server, d.port) else ConnectPlain(d.server, d.port)
  }

  /** The commands a session attempts, in order, when nothing fails. */
  function Plan(d: SmtpDetails, sender: string, recipient: string, m: Message): seq<Command>
  {
    [Connection(d)] +
    (if !d.useSsl && d.starttls then [StartTls] else []) +
    (if HasCredentials(d) then [Auth(d.username, d.password)] else []) +
    [MailTransaction(sender, recipient, m)]
  }

  /** Issuing commands until one is refused. */
  function Attempt(cmds: seq<Command>, accepts: Command -> bool): Run
  {
    if cmds == [] then Run(true, [])
    else if !accepts(cmds[0]) then Run(false, [cmds[0]])
    else
      var r := Attempt(cmds[1..], accepts);
      Run(r.sent, [cmds[0]] + r.transcript)
  }

  /**
   * An attempt issues a prefix of the commands; it succeeds exactly when every command is
   * accepted, and otherwise stops right after the first refused one.
   */
  lemma {:induction false} AttemptIssuesPrefix(cmds: seq<Command>, accepts: Command -> bool)
    ensures var r := Attempt(cmds, accepts);
            |r.transcript| <= |cmds| && r.transcript == cmds[..|r.transcript|] &&
            (r.sent <==> forall k | 0 <= k < |cmds| :: accepts(cmds[k])) &&
            (r.sent ==> r.transcript == cmds) &&
            (!r.sent ==>
               r.transcript != [] && !accepts(r.transcript[|r.transcript| - 1]) &&
               forall k | 0 <= k < |r.transcript| - 1 :: accepts(r.transcript[k]))
  {
    if cmds != [] && accepts(cmds[0]) {
      AttemptIssuesPrefix(cmds[1..], accepts);
      var r := Attempt(cmds[1..], accepts);
      assert Attempt(cmds, accepts).transcript == [cmds[0]] + r.transcript;
      forall k | 1 <= k < |cmds|
        ensures accepts(cmds[k]) <==> accepts(cmds[1..][k - 1])
      {
      }
    }
  }

  /**
   * The attempt is determined by where it stops: after the whole list, or at the first
   * refused command.
   */
  lemma {:induction false} AttemptStopsAt(cmds: seq<Command>, issued: seq<Command>, accepts: Command -> bool)
    requires |issued| <= |cmds| && issued == cmds[..|issued|]
    requires forall k | 0 <= k < |issued| - 1 :: accepts(issued[k])
    requires issued == cmds || (issued != [] && !accepts(issued[|issued| - 1]))
    ensures Attempt(cmds, accepts) == Run(forall k | 0 <= k < |cmds| :: accepts(cmds[k]), issued)
  {
    if cmds != [] && accepts(cmds[0]) {
      assert issued != [] && issued[0] == cmds[0];
      assert issued[1..] == cmds[1..][..|issued| - 1];
      AttemptStopsAt(cmds[1..], issued[1..], accepts);
      assert issued == [cmds[0]] + issued[1..];
    }
  }

  /**
   * Bookkeeping for `Deliver`: `cmds` splits into the commands issued and those still to
   * come; all issued commands but the last were accepted, and `ok` says whether the last was.
   */
  ghost predicate Progress(cmds: seq<Command>, done: seq<Command>, todo: seq<Command>, ok: bool,
                           accepts: Command -> bool)
  {
    cmds == done + todo &&
    (forall k | 0 <= k < |done| - 1 :: accepts(done[k])) &&
    (if done == [] then ok else ok == accepts(done[|done| - 1]))
  }

  /** A session runs the plan: the first command opens the connection, which is quit whenever it opened. */
  function Execute(plan: seq<Command>, accepts: Command -> bool): Run
    requires plan != []
  {
    if !accepts(plan[0]) then Run(false, [plan[0]])
    else
      var r := Attempt(plan[1..], accepts);
      Run(r.sent, [plan[0]] + r.transcript + [Quit])
  }

  function Session(d: SmtpDetails, sender: string, recipient: string, m: Message,
                   accepts: Command -> bool): Run
  {
    Execute(Plan(d, sender, recipient, m), accepts)
  }

  /** What `send_spoofed_email` returns and issues: nothing at all when the message cannot be built. */
  function SpoofOutcome(sender: string, recipient: string, subject: string, body: string,
                        attachmentPath: Option<string>, d: SmtpDetails, files: map<string, bytes>,
                        encode: (string, string) -> bytes, accepts: Command -> bool): Run
  {
    match BuildMessage(sender, recipient, subject, body, attachmentPath, files, encode)
    case None => Run(false, [])
    case Some(m) => Session(d, sender, recipient, m, accepts)
  }

  /**
   * The message-building half of `send_spoofed_email`: a `multipart/mixed` message with the
   * From, To and Subject headers, the text body, and the attachment when a path was given;
   * `None` when that file cannot be read.
   */
  method ComposeMessage(fromAddr: string, toAddr: string, subject: string, body: string,
                        attachmentPath: Option<string>, files: map<string, bytes>,
                        encode: (string, string) -> bytes)
    returns (message: Option<Message>)
    ensures message == BuildMessage(fromAddr, toAddr, subject, body, attachmentPath, files, encode)
  {
    var msg := new MultipartMessage();
    msg.SetHeader("From", fromAddr);
    msg.SetHeader("To", toAddr);
    msg.SetHeader("Subject", subject);
    msg.Attach(TextLeaf(body, encode));
    if WantsAttachment(attachmentPath) {
      var path := attachmentPath.value;
      if path !in files {
        return None;
      }
      var part := Leaf(OctetStream, None, Some(Basename(path)), None, files[path]);
      part := part.(disposition := Some(Disposition("attachment", Some(Basename(path)))));
      msg.Attach(part);
      assert msg.parts == [TextLeaf(body, encode), AttachmentLeaf(path, files[path])];
    } else {
      assert msg.parts == [TextLeaf(body, encode)];
    }
    var built := msg.Snapshot();
    assert built.headers == MessageHeaders(fromAddr, toAddr, subject);
    message := Some(built);
  }

  /**
   * `send_spoofed_email(from_addr, to_addr, subject, body, attachment_path, smtp_details)`,
   * with the file system, the charset codec and the remote server as parameters.
   */
  method SendSpoofedEmail(fromAddr: string, toAddr: string, subject: string, body: string,
                          attachmentPath: Option<string>, smtpDetails: SmtpDetails,
                          files: map<string, bytes>, encode: (string, string) -> bytes,
                          accepts: Command -> bool)
    returns (sent: bool, transcript: seq<Command>)
    ensures Run(sent, transcript) ==
            SpoofOutcome(fromAddr, toAddr, subject, body, attachmentPath, smtpDetails, files, encode, accepts)
  {
    var message := ComposeMessage(fromAddr, toAddr, subject, body, attachmentPath, files, encode);
    if message.None? {
      return false, [];
    }
    sent, transcript := Deliver(smtpDetails, fromAddr, toAddr, message.value, accepts);
  }

  /**
   * Once the connection opened, the session stops at the first refused command or after the
   * last one, and then quits.
   */
  lemma SessionClosed(plan: seq<Command>, done: seq<Command>, todo: seq<Command>, ok: bool,
                      accepts: Command -> bool)
    requires plan != [] && accepts(plan[0])
    requires Progress(plan[1..], done, todo, ok, accepts) && done != [] && (ok ==> todo == [])
    ensures Execute(plan, accepts) == Run(ok, [plan[0]] + done + [Quit])
  {
    AttemptStopsAt(plan[1..], done, accepts);
    if !ok {
      assert plan[1..][|done| - 1] == done[|done| - 1];
    }
  }

  /**
   * The `try:` block of `send_spoofed_email`: one session over a built message, TLS-wrapped
   * from the start when `use_ssl` is set, otherwise plain with an optional STARTTLS.
   */
  method Deliver(smtpDetails: SmtpDetails, fromAddr: string, toAddr: string, message: Message,
                 accepts: Command -> bool)
    returns (sent: bool, transcript: seq<Command>)
    ensures Run(sent, transcript) == Session(smtpDetails, fromAddr, toAddr, message, accepts)
  {
    var server := new SmtpClient(accepts);
    var ok;
    ghost var plan := Plan(smtpDetails, fromAddr, toAddr, message);
    // After the connection the plan is `done + todo`: `done` has been issued, `todo` not yet.
    ghost var done: seq<Command> := [];
    ghost var todo := plan[1..];
    if smtpDetails.useSsl {
      ok := server.Connect(true, smtpDetails.server, smtpDetails.port);
      assert server.transcript == [plan[0]] + done;
      if ok {
        if HasCredentials(smtpDetails) {
          ok := server.Login(smtpDetails.username, smtpDetails.password);
          done, todo := done + [todo[0]], todo[1..];
          assert Progress(plan[1..], done, todo, ok, accepts) && server.transcript == [plan[0]] + done;
        }
        if ok {
          ok := server.Sendmail(fromAddr, toAddr, message);
          done, todo := done + [todo[0]], todo[1..];
          assert Progress(plan[1..], done, todo, ok, accepts) && server.transcript == [plan[0]] + done;
        }
        server.Exit();
      }
    } else {
      ok := server.Connect(false, smtpDetails.server, smtpDetails.port);
      assert server.transcript == [plan[0]] + done;
      if ok {
        if smtpDetails.starttls {
          ok := server.Starttls();
          done, todo := done + [todo[0]], todo[1..];
          assert Progress(plan[1..], done, todo, ok, accepts) && server.transcript == [plan[0]] + done;
        }
        if ok && HasCredentials(smtpDetails) {
          ok := server.Login(smtpDetails.username, smtpDetails.password);
          done, todo := done + [todo[0]], todo[1..];
          assert Progress(plan[1..], done, todo, ok, accepts) && server.transcript == [plan[0]] + done;
        }
        if ok {
          ok := server.Sendmail(fromAddr, toAddr, message);
          done, todo := done + [todo[0]], todo[1..];
          assert Progress(plan[1..], done, todo, ok, accepts) && server.transcript == [plan[0]] + done;
        }
        server.Exit();
      }
    }
    if accepts(plan[0]) {
      assert Progress(plan[1..], done, todo, ok, accepts) && done != [] && (ok ==> todo == []);
      SessionClosed(plan, done, todo, ok, accepts);
      assert server.transcript == [plan[0]] + done + [Quit];
    } else {
      assert server.transcript == [plan[0]] && !ok;
    }
    sent, transcript := ok, server.transcript;
  }

  /**
   * The plan: it opens with the connection and closes with the one mail transaction;
   * STARTTLS comes right after a plain connection when the flag asks for it, and the login
   * uses the configured credentials and happens only when both are non-empty.
   */
  lemma PlanShape(d: SmtpDetails, sender: string, recipient: string, m: Message)
    ensures var p := Plan(d, sender, recipient, m);
            2 <= |p| && p[0] == Connection(d) && p[|p| - 1] == MailTransaction(sender, recipient, m) &&
            (forall k | 1 <= k < |p| :: !p[k].ConnectTls? && !p[k].ConnectPlain? && p[k] != Quit) &&
            (forall k | 0 <= k < |p| - 1 :: !p[k].MailTransaction?) &&
            p[0] != Quit &&
            ((exists k | 0 <= k < |p| :: p[k] == StartTls) <==> !d.useSsl && d.starttls) &&
            (!d.useSsl && d.starttls ==> p[1] == StartTls) &&
            (forall k | 0 <= k < |p| :: p[k].Auth? ==> p[k] == Auth(d.username, d.password) && HasCredentials(d)) &&
            (HasCredentials(d) ==> exists k | 0 <= k < |p| :: p[k].Auth?)
  {
    var p := Plan(d, sender, recipient, m);
    if HasCredentials(d) {
      assert p[|p| - 2].Auth?;
    }
    if !d.useSsl && d.starttls {
      assert p[1] == StartTls;
    }
  }

  /**
   * The transcript of a session is a prefix of the plan, followed by QUIT exactly when the
   * connection opened; `n` is the number of plan commands issued.
   */
  lemma SessionTranscript(d: SmtpDetails, sender: string, recipient: string, m: Message,
                          accepts: Command -> bool) returns (n: nat)
    ensures var p := Plan(d, sender, recipient, m);
            var r := Session(d, sender, recipient, m, accepts);
            1 <= n <= |p| &&
            r.transcript == p[..n] + (if accepts(p[0]) then [Quit] else []) &&
            (r.sent <==> forall k | 0 <= k < |p| :: accepts(p[k])) &&
            (r.sent ==> n == |p|) &&
            (!accepts(p[0]) ==> n == 1)
  {
    var p := Plan(d, sender, recipient, m);
    AttemptIssuesPrefix(p[1..], accepts);
    var a := Attempt(p[1..], accepts);
    if accepts(p[0]) {
      n := 1 + |a.transcript|;
      assert [p[0]] + a.transcript == p[..n];
      forall k | 1 <= k < |p|
        ensures accepts(p[k]) <==> accepts(p[1..][k - 1])
      {
      }
    } else {
      n := 1;
    }
  }

  /**
   * TLS: with `use_ssl` the connection is TLS from the start and STARTTLS is never issued,
   * whatever the `starttls` flag says; without it the connection is plain, and STARTTLS is
   * issued, right after connecting, exactly when the flag is set and the connection opened.
   */
  lemma SessionSecurity(d: SmtpDetails, sender: string, recipient: string, m: Message,
                        accepts: Command -> bool)
    ensures var t := Session(d, sender, recipient, m, accepts).transcript;
            t != [] && t[0] == Connection(d) &&
            (d.useSsl ==> t[0] == ConnectTls(d.server, d.port) && StartTls !in t) &&
            (!d.useSsl ==> t[0] == ConnectPlain(d.server, d.port) && (StartTls in t ==> d.starttls)) &&
            (!d.useSsl && accepts(Connection(d)) ==> (StartTls in t <==> d.starttls)) &&
            (!d.useSsl && d.starttls && accepts(Connection(d)) ==> t[1] == StartTls)
  {
    var p := Plan(d, sender, recipient, m);
    var n := SessionTranscript(d, sender, recipient, m, accepts);
    PlanShape(d, sender, recipient, m);
    var t := Session(d, sender, recipient, m, accepts).transcript;
    if StartTls in t {
      var k :| 0 <= k < |t| && t[k] == StartTls;
      assert k < n && p[k] == StartTls;
    }
    if !d.useSsl && d.starttls && accepts(Connection(d)) {
      assert n >= 2 by {
        AttemptIssuesPrefix(p[1..], accepts);
      }
      assert t[1] == p[1] == StartTls;
    }
  }

  /**
   * Login happens only with the configured credentials and only when both are non-empty,
   * always before the mail transaction; a session that succeeded logged in exactly when
   * both credentials are non-empty.
   */
  lemma SessionLogin(d: SmtpDetails, sender: string, recipient: string, m: Message,
                     accepts: Command -> bool)
    ensures var r := Session(d, sender, recipient, m, accepts);
            var t := r.transcript;
            (forall k | 0 <= k < |t| :: t[k].Auth? ==> t[k] == Auth(d.username, d.password) && HasCredentials(d)) &&
            (forall i, j | 0 <= i < |t| && 0 <= j < |t| :: t[i].Auth? && t[j].MailTransaction? ==> i < j) &&
            (r.sent ==> (Auth(d.username, d.password) in t <==> HasCredentials(d)))
  {
    var p := Plan(d, sender, recipient, m);
    var n := SessionTranscript(d, sender, recipient, m, accepts);
    PlanShape(d, sender, recipient, m);
    var t := Session(d, sender, recipient, m, accepts).transcript;
    forall k | 0 <= k < |t| && t[k].Auth?
      ensures k < n && t[k] == p[k]
    {
    }
    forall i, j | 0 <= i < |t| && 0 <= j < |t| && t[i].Auth? && t[j].MailTransaction?
      ensures i < j
    {
      assert j < n && t[j] == p[j] && j == |p| - 1;
    }
    if Session(d, sender, recipient, m, accepts).sent && HasCredentials(d) {
      var k :| 0 <= k < |p| && p[k].Auth?;
      assert t[k] == p[k];
    }
  }

  /**
   * Exactly one mail transaction per successful call, issued last before QUIT, and never
   * more than one in any call.
   */
  lemma SessionSendsOnce(d: SmtpDetails, sender: string, recipient: string, m: Message,
                         accepts: Command -> bool)
    ensures var r := Session(d, sender, recipient, m, accepts);
            var t := r.transcript;
            (forall i, j | 0 <= i < |t| && 0 <= j < |t| :: t[i].MailTransaction? && t[j].MailTransaction? ==> i == j) &&
            (r.sent ==> |t| >= 2 && t[|t| - 2] == MailTransaction(sender, recipient, m))
  {
    var p := Plan(d, sender, recipient, m);
    var n := SessionTranscript(d, sender, recipient, m, accepts);
    PlanShape(d, sender, recipient, m);
    var t := Session(d, sender, recipient, m, accepts).transcript;
    forall k | 0 <= k < |t| && t[k].MailTransaction?
      ensures k == |p| - 1
    {
      assert k < n && t[k] == p[k];
    }
    if Session(d, sender, recipient, m, accepts).sent {
      assert t[|t| - 2] == p[|p| - 1];
    }
  }

  /**
   * The connection is always released: once it opened, the transcript ends with QUIT and
   * QUIT appears nowhere else; a refused connection issues nothing more and fails.
   */
  lemma SessionReleasesConnection(d: SmtpDetails, sender: string, recipient: string, m: Message,
                                  accepts: Command -> bool)
    ensures var r := Session(d, sender, recipient, m, accepts);
            var t := r.transcript;
            (accepts(Connection(d)) ==> t[|t| - 1] == Quit && forall k | 0 <= k < |t| - 1 :: t[k] != Quit) &&
            (!accepts(Connection(d)) ==> t == [Connection(d)] && !r.sent)
  {
    var p := Plan(d, sender, recipient, m);
    var n := SessionTranscript(d, sender, recipient, m, accepts);
    PlanShape(d, sender, recipient, m);
    var t := Session(d, sender, recipient, m, accepts).transcript;
    forall k | 0 <= k < |t| - 1
      ensures t[k] != Quit
    {
      assert accepts(Connection(d)) ==> t[k] == p[k];
    }
  }

  /** An unreadable attachment fails the call before any connection is attempted. */
  lemma UnreadableAttachmentSendsNothing(sender: string, recipient: string, subject: string, body: string,
                                         attachmentPath: Option<string>, d: SmtpDetails,
                                         files: map<string, bytes>, encode: (string, string) -> bytes,
                                         accepts: Command -> bool)
    requires WantsAttachment(attachmentPath) && attachmentPath.value !in files
    ensures SpoofOutcome(sender, recipient, subject, body, attachmentPath, d, files, encode, accepts) == Run(false, [])
  {
  }

  /**
   * Through the Resend relay, the connection is TLS from the start exactly for ports 465
   * and 2465 (and for an unlisted port, replaced by 465), and otherwise upgraded with
   * STARTTLS right after connecting; a successful send logs in as `resend` with the API key
   * whenever the key is non-empty.
   */
  lemma ResendSession(port: int, apiKey: string, sender: string, recipient: string, m: Message,
                      accepts: Command -> bool)
    ensures var d := ResendSmtpDetails(port, apiKey);
            var r := Session(d, sender, recipient, m, accepts);
            (r.transcript[0] == ConnectTls(ResendHost, d.port) <==> d.port in ImplicitTlsPorts) &&
            (d.port !in ImplicitTlsPorts && accepts(r.transcript[0]) ==> r.transcript[1] == StartTls) &&
            (r.sent && apiKey != "" ==> Auth(ResendUser, apiKey) in r.transcript)
  {
    var d := ResendSmtpDetails(port, apiKey);
    SessionSecurity(d, sender, recipient, m, accepts);
    SessionLogin(d, sender, recipient, m, accepts);
  }
}
