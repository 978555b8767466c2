# DMARC spoofability checker and spoofed-mail sender, in Dafny

This project models the core of a small Python tool. The tool looks up a domain's DMARC
policy. It builds a MIME message with a forged `From:` header and an optional attachment,
and sends it through a custom or a Resend SMTP relay. A companion SMTP capture server logs
what it receives. The model covers five things:

- `check_dmarc` (module `Dmarc`, file `dmarc.dfy`). It queries TXT records at
  `_dmarc.<domain>` and reports the first record that carries `v=DMARC1` and one of the
  three policy tags. The tags are tested by substring, `p=none`, then `p=quarantine`, then
  `p=reject`, in that fixed priority. A `v=DMARC1` record with none of them is passed over
  and the scan goes on. A missing domain, an empty answer and other resolver failures become
  a verdict with no policy.
  The DNS resolver is the parameter `resolve`.
- `get_smtp_details` and `get_resend_smtp_details` (module `SmtpConfig`). They turn the
  operator's answers into connection settings. The Resend port table maps 465 and 2465 to
  implicit TLS and 25, 587 and 2587 to STARTTLS. Any other port falls back to 465 with TLS.
- `send_spoofed_email` (module `Dispatch`). It builds a `multipart/mixed` message with the
  class `Mime.MultipartMessage`. It then drives one SMTP session through the class
  `Dispatch.SmtpClient`. Each client call records the command it issues. The remote
  server is the parameter `accepts`, which says which commands succeed. A refused command
  stands for the exception `smtplib` raises, and the session stops there. Leaving the `with`
  block sends `Quit` whenever the connection opened.
- `SpoofHandler.handle_DATA` (module `Capture`). It turns an envelope into the ordered list
  of log lines it writes: sender, recipients, subject, then one line per leaf of the MIME
  tree, or the whole content for a single-part message. On a parse error, or when a leaf
  cannot be decoded, it logs the error and the raw content after the lines already
  written. It always answers `250 Message accepted`.
  Parsing and the charset codecs are parameters.
- `RoundTrip` ties the two sides together. It assumes two things of the libraries: parsing
  the sent bytes gives back exactly the tree that was built, and the body's charset codec
  decodes what it encoded. Under those assumptions the capture server logs the built
  message with its subject, exactly its body text, and the attachment's stripped basename
  and size.

Substring tests are `Text.Contains`. Header lookup is `Mime.GetHeader`, which compares
names case-insensitively and returns the first match. `msg.walk()` is the pre-order
`Mime.Walk`. `part.get_filename()` is `Mime.Filename`: the `filename` parameter of
`Content-Disposition`, else the `name` parameter of `Content-Type`, with surrounding
whitespace removed by `Text.Strip`, which models `str.strip()`. The body's charset, chosen
as `MIMEText` chooses it, is `Dispatch.BodyCharset`: `us-ascii` when every character is
ASCII, otherwise `utf-8`.

Tag order does not matter: the code tests `p=none`, then `p=quarantine`, then `p=reject`,
wherever they appear in the record (`Dmarc.TagOrderIrrelevant`). Because the check is a plain
substring test, `sp=none` also matches `p=none`. So `v=DMARC1; p=reject; sp=none` reads as
policy `none` (`Dmarc.RejectWithSubdomainNone`). The model keeps that behaviour as written.

## Model

| member | source | states |
|---|---|---|
| Dmarc.DmarcQueryNames | sendspooped.py:30 | the lookup is a TXT query for `_dmarc.` followed by the domain itself; different domains give different queries |
| Dmarc.ClassifyRecord | sendspooped.py:37-43 | a policy is reported only for a record with `v=DMARC1` that holds that policy's tag; quarantine only when `p=none` is absent, reject only when both others are absent; no policy iff the version tag or all three tags are missing |
| Dmarc.ScanRecords | sendspooped.py:31-44 | no result iff no record classifies; otherwise the result is the policy and text of the first record that classifies |
| Dmarc.ScanStep | sendspooped.py:31-43 | one loop step: the current record decides when it classifies, otherwise scanning goes on with the rest |
| Dmarc.CheckDmarc | sendspooped.py:22-48 | the loop over the answers returns exactly the verdict the lookup result determines |
| Dmarc.Verdict.PolicyName | sendspooped.py:38-43 | the returned policy string is present iff a policy was found, and it is the selecting tag without its `p=`: `none`, `quarantine` or `reject` |
| Dmarc.ScanConcat | sendspooped.py:31-44 | scanning two batches of records equals scanning the first and, only when it finds nothing, the second |
| Dmarc.AbsentPolicy | sendspooped.py:44-48 | no policy iff the lookup did not answer or no answered record classifies; then the record is "No DMARC record found", except on a resolver error, which yields "Error checking DMARC: " and the message |
| Dmarc.FirstRecordDecides | sendspooped.py:31-43 | when record i is the first that classifies, the verdict is its policy and its text |
| Dmarc.SubdomainNoneReadsAsNone | sendspooped.py:37-39 | any `v=DMARC1` record containing `sp=none` classifies as policy none |
| Dmarc.JoinedContains | sendspooped.py:37-43 | a `;`-free tag occurs in a `;`-joined record iff it occurs in one of its tags |
| Dmarc.TagOrderIrrelevant | sendspooped.py:37-43 | two records made of the same tags in any order classify alike |
| Dmarc.RejectWithSubdomainNone | sendspooped.py:37-43 | `v=DMARC1; p=reject; sp=none` classifies as policy none |
| Dmarc.QuarantineRecord | sendspooped.py:37-41 | a single quarantine record gives policy quarantine together with that record's text |
| SmtpConfig.ResendSmtpDetails | sendspooped.py:109-134 | host `smtp.resend.com`, user `resend`, the API key as password; a listed port is kept and any other becomes 465; TLS iff the port is 465 or 2465, STARTTLS iff it is 25, 587 or 2587, never both |
| SmtpConfig.ResendSettled | sendspooped.py:114-124 | choosing the port the settings already hold gives the same settings again |
| SmtpConfig.CustomSmtpDetails | sendspooped.py:86-107 | server, port and TLS as answered; STARTTLS only when TLS is off and it was asked for; credentials only when authentication is required, otherwise both empty and no login |
| SmtpConfig.UnaskedAnswersIgnored | sendspooped.py:91-99 | with TLS on, the STARTTLS answer has no effect; without authentication, the username and password answers have no effect |
| Text.LowerAsciiIdempotent | smtp.py:17 | lower-casing an already lower-cased name changes nothing |
| Text.StripShape | smtp.py:37-38 | the stripped string is a trimmed middle of its argument, with only whitespace before and after it |
| Text.StripPadding | smtp.py:37-38 | stripping whitespace, a trimmed middle and whitespace gives exactly that middle |
| Text.Basename | sendspooped.py:60-61 | the basename holds no `/`, is a suffix of the path, and is preceded by `/` whenever it is shorter than the path |
| Mime.GetHeader | smtp.py:17 | a value iff some header's name matches case-insensitively, and then it is the value of the first match |
| Mime.GetHeaderIgnoresCase | smtp.py:17 | looking a header up by the lower-cased name gives the same value as by the name itself |
| Mime.FilenameStripped | smtp.py:37-41 | the disposition's filename is read back without its surrounding whitespace, so a name of spaces alone reads as empty and is logged as a plain part |
| Mime.WalkSkippingContainers | smtp.py:21-24 | the pre-order walk with containers skipped yields exactly the leaves of the tree, in order |
| Mime.MultipartMessage.constructor | sendspooped.py:51 | a new message has the `MIME-Version: 1.0` header and no parts; its `multipart/mixed` type is the root container's type in `Snapshot` |
| Mime.MultipartMessage.SetHeader | sendspooped.py:52-54 | appends one header and leaves the parts unchanged |
| Mime.MultipartMessage.Attach | sendspooped.py:55 | appends one part and leaves the headers unchanged |
| Dispatch.SmtpClient.constructor | sendspooped.py:69 | a new connection object has issued nothing |
| Dispatch.SmtpClient.Connect | sendspooped.py:68-74 | issues a TLS connect when asked for TLS and a plain connect otherwise; succeeds iff the server accepts it |
| Dispatch.SmtpClient.Starttls | sendspooped.py:76 | issues STARTTLS; succeeds iff the server accepts it |
| Dispatch.SmtpClient.Login | sendspooped.py:71 | issues a login with exactly the given credentials; succeeds iff accepted |
| Dispatch.SmtpClient.Sendmail | sendspooped.py:72 | issues one mail transaction for the sender, the recipient and the message; succeeds iff accepted |
| Dispatch.SmtpClient.Exit | sendspooped.py:69 | leaving the `with` block issues QUIT |
| Dispatch.MessageShape | sendspooped.py:50-65 | the build fails iff an attachment was asked for and cannot be read; otherwise From, To and Subject read back verbatim, the text body is the first part, and an attachment, present iff asked for, is `application/octet-stream` with the path's basename both as its `name` and as the filename of a `Content-Disposition: attachment` header, reads back through `get_filename` as that basename stripped, and holds the file's bytes |
| Dispatch.AttachmentFilename | sendspooped.py:60-61 | the attachment's filename reads back as the path's basename, stripped |
| Dispatch.HeadersFound | sendspooped.py:52-54 | From, To and Subject read back as the values they were set to |
| Dispatch.ComposeMessage | sendspooped.py:51-65 | the message assembled with the builder class is the one `BuildMessage` defines, or none when the attachment is unreadable |
| Dispatch.AttemptIssuesPrefix | sendspooped.py:67-84 | issuing commands until one is refused issues a prefix of them, and reports success iff every command was accepted |
| Dispatch.SendSpoofedEmail | sendspooped.py:50-84 | the return value and the commands issued are those `SpoofOutcome` defines: nothing when the message cannot be built, otherwise one session |
| Dispatch.Deliver | sendspooped.py:67-84 | the TLS and plain branches issue exactly the planned session, stopping at the first refusal and quitting when the connection opened |
| Dispatch.PlanShape | sendspooped.py:68-79 | a session opens with the connection and ends with the one mail transaction; STARTTLS comes right after a plain connect exactly when asked for; a login, present iff both credentials are non-empty, uses the configured credentials |
| Dispatch.SessionTranscript | sendspooped.py:67-84 | the transcript is a prefix of the plan plus QUIT iff the connection opened; the call returns True iff every planned command was accepted |
| Dispatch.SessionSecurity | sendspooped.py:68-76 | with `use_ssl` the connection is TLS and STARTTLS is never issued; without it the connection is plain and STARTTLS is issued, right after connecting, iff the flag is set and the connection opened |
| Dispatch.SessionLogin | sendspooped.py:70-78 | every login uses the configured credentials and comes before the mail transaction; on success a login happened iff both credentials are non-empty |
| Dispatch.SessionSendsOnce | sendspooped.py:72-79 | at most one mail transaction is issued, and on success it is the last command before QUIT |
| Dispatch.SessionReleasesConnection | sendspooped.py:69-79 | when the connection opens, the session ends with a single QUIT; when it does not, only the connect is issued and the call returns False |
| Dispatch.UnreadableAttachmentSendsNothing | sendspooped.py:57-65 | an unreadable attachment returns False before any SMTP command |
| Dispatch.ResendSession | sendspooped.py:114-124 | with Resend settings, the session opens with TLS iff the port is an implicit-TLS port, otherwise STARTTLS follows the connect, and a successful send with a non-empty key logs in as `resend` |
| Capture.DescribeLeaf | smtp.py:25-41 | text/plain and text/html parts are logged as their decoded text or fail when the decode raises; any other part is logged as an attachment iff its filename, once stripped, is non-empty, with its type and payload size |
| Capture.BinaryNeverDecoded | smtp.py:35-41 | the line for a non-text part does not depend on the charset codecs |
| Capture.DescribeLeavesConcat | smtp.py:21-41 | describing two runs of leaves equals describing the first and, only when it did not fail, the second |
| Capture.DescribeStep | smtp.py:21-41 | one loop step: a container adds nothing, a leaf adds its line or its failure |
| Capture.LeavesDescribedInOrder | smtp.py:21-41 | the first n leaves each give their line in order, and either all leaves were described or leaf n is the one that failed |
| Capture.LogParts | smtp.py:19-41 | the loop over `msg.walk()` produces exactly the listing of the tree's leaves |
| Capture.HandleData | smtp.py:10-51 | the reply is always `250 Message accepted` and the lines logged are exactly the report |
| Capture.ReportFraming | smtp.py:11-50 | the report opens with the banner, sender and recipients, then the subject and the content heading whenever parsing succeeded, and ends with the closing rule |
| Capture.SinglePartReportedWhole | smtp.py:42-45 | a single-part message is logged as its whole content decoded as UTF-8 |
| Capture.MultipartReportedByLeaf | smtp.py:19-41 | a multipart message gets one line per leaf in order; after a failing leaf come the error and the raw content, then the closing rule |
| Capture.FailureKeepsRawContent | smtp.py:46-49 | after a parse failure or an undecodable part, the report ends with the error, the raw-content heading, the raw content and the closing rule |
| RoundTrip.BuiltMessageLeaves | sendspooped.py:51-62 | a built message is a container whose leaves are the text body then the attachment when asked for, under the four built headers |
| RoundTrip.AttachmentDescribed | smtp.py:35-41 | an attached file is logged as an attachment under its stripped basename with its byte count, or as a plain part when that name is empty |
| RoundTrip.BuiltLeavesDescribed | smtp.py:25-41 | with a round-tripping codec, the body leaf is logged as exactly the body, and the attachment by its basename and byte count |
| RoundTrip.BuiltMessageCaptured | sendspooped.py:51-62 | when parsing gives back the built tree and the body codec round-trips, the message is logged with its subject, exactly its body, and, when asked for, the attachment's stripped basename and size |

## Left out

- The interactive shell (`display_disclaimer`, `main`, prompts, colours, the retry loop on
  `os.path.exists`) and `venv.py`: these are user interaction and environment setup, not logic.
- Input parsing (`strip`, `lower`, `int(...)`): the answers arrive already parsed as booleans,
  integers and strings. A non-numeric port, which raises in the source, is not modelled.
- DNS resolution: the lookup result is a parameter. Joining a record's segments, or the
  `to_text()` fallback, is assumed done by the resolver. The source joins a record only when
  the loop reaches it, so records after the deciding one are never joined and their text does
  not matter. A decoding error while joining a record that is reached (no earlier record
  decided) gives `Error checking DMARC: …`, so it is the resolver parameter answering
  `ResolverError`, which `DecideVerdict` maps to that message. A record after the deciding
  one may be anything, undecodable bytes included, and the verdict is the same.
- `smtplib` networking, TLS handshakes, authentication mechanisms and reply codes: each call
  only succeeds or fails, as the server parameter decides. A failure while sending QUIT on
  leaving the `with` block is not modelled.
- Parsing (`message_from_bytes`) and the charset codecs are parameters. Serialisation
  (`as_string`) is not modelled: the transaction carries the message value, not its text.
- `Capture.EffectiveCharset` does not lowercase the charset as `get_content_charset` does,
  because the codec parameter stands for the whole lookup.
- `errors='replace'` is part of the codec parameter. A decode fails when the charset is unknown
  or its codec refuses `errors='replace'` (`idna` raises for any mode but `'strict'`); both
  are the codec returning None, logged as `Capture.UndecodablePart`.
- Logging is modelled as a list of lines only for `handle_DATA`; levels, formatting and the
  text of exception messages are left out. None of the three log lines of `send_spoofed_email`
  is modelled: the file-read error (sendspooped.py:64), `Email sent from … to …` (:80) and
  `Error sending email: …` (:83). Its outcome is `Run.sent`.
- The aiosmtpd `Controller`, asyncio and the server's main loop are runtime plumbing.
- RoundTrip.BuiltMessageCaptured: assumes that parsing returns exactly the built tree and
  that the body's codec round-trips. The real serialiser breaks the first assumption in
  some cases. A non-ASCII subject is sent as an RFC 2047 encoded word, and a long one is
  folded. The parser returns those forms unchanged, so the subject logged then differs from
  the one set. Quoting of filename parameters is not modelled either.
- `Mime.Filename` omits the RFC 2231 decoding of `collapse_rfc2231_value`: the parameter
  values arrive already decoded, as part of the parser parameter.
- `os.path.basename` is modelled with `/` as the only separator, as on POSIX.
