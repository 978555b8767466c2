/**
 * The two transport configurations `send_spoofed_email` accepts: a custom SMTP server
 * built from the operator's answers (`get_smtp_details`) and the fixed Resend relay
 * (`get_resend_smtp_details`), whose port decides between implicit TLS (section 3 of
 * RFC 8314) and STARTTLS (RFC 3207).
 */
module SmtpConfig {

  /** The `smtp_details` dict: every builder fills all six keys. */
  datatype SmtpDetails = SmtpDetails(
    server: string, port: int, useSsl: bool, starttls: bool, username: string, password: string)

  const ResendHost := "smtp.resend.com"
  const ResendUser := "resend"
  const ImplicitTlsPorts: set<int> := {465, 2465}
  const StartTlsPorts: set<int> := {25, 587, 2587}
  const DefaultResendPort := 465

  /** Both credentials are non-empty: the condition under which the session logs in. */
  predicate HasCredentials(d: SmtpDetails)
  {
    d.username != "" && d.password != ""
  }

  /**
   * `get_resend_smtp_details` with the chosen port and API key as parameters: a listed
   * port keeps its own security mode, any other port becomes 465 with implicit TLS.
   */
  function ResendSmtpDetails(port: int, apiKey: string): (d: SmtpDetails)
    ensures d.server == ResendHost && d.username == ResendUser && d.password == apiKey
    ensures d.port in ImplicitTlsPorts + StartTlsPorts
    ensures port in ImplicitTlsPorts + StartTlsPorts ==> d.port == port
    ensures port !in ImplicitTlsPorts + StartTlsPorts ==> d.port == DefaultResendPort
    ensures d.useSsl <==> d.port in ImplicitTlsPorts
    ensures d.starttls <==> d.port in StartTlsPorts
    ensures !(d.useSsl && d.starttls)
  {
    if port in ImplicitTlsPorts then SmtpDetails(ResendHost, port, true, false, ResendUser, apiKey)
    else if port in StartTlsPorts then SmtpDetails(ResendHost, port, false, true, ResendUser, apiKey)
    else SmtpDetails(ResendHost, DefaultResendPort, true, false, ResendUser, apiKey)
  }

  /** Choosing the port that the configuration settled on gives the same configuration again. */
  lemma ResendSettled(port: int, apiKey: string)
    ensures ResendSmtpDetails(ResendSmtpDetails(port, apiKey).port, apiKey) == ResendSmtpDetails(port, apiKey)
  {
  }

  /**
   * The operator's answers to `get_smtp_details`, the yes/no questions already read as
   * booleans. `starttls` is only asked when `useSsl` is false, and `username`/`password`
   * only when `authRequired` is true.
   */
  datatype SmtpAnswers = SmtpAnswers(
    server: string, port: int, useSsl: bool, starttls: bool,
    authRequired: bool, username: string, password: string)

  /** `get_smtp_details` with its answers as parameters. */
  function CustomSmtpDetails(a: SmtpAnswers): (d: SmtpDetails)
    ensures d.server == a.server && d.port == a.port && d.useSsl == a.useSsl
    ensures d.starttls <==> !a.useSsl && a.starttls
    ensures !(d.useSsl && d.starttls)
    ensures a.authRequired ==> d.username == a.username && d.password == a.password
    ensures !a.authRequired ==> d.username == "" && d.password == "" && !HasCredentials(d)
  {
    var starttls := if a.useSsl then false else a.starttls;
    var (username, password) := if a.authRequired then (a.username, a.password) else ("", "");
    SmtpDetails(a.server, a.port, a.useSsl, starttls, username, password)
  }

  /** An answer to a question that was never asked does not influence the configuration. */
  lemma UnaskedAnswersIgnored(a: SmtpAnswers, starttls: bool, username: string, password: string)
    ensures a.useSsl ==> CustomSmtpDetails(a.(starttls := starttls)) == CustomSmtpDetails(a)
    ensures !a.authRequired ==>
              CustomSmtpDetails(a.(username := username, password := password)) == CustomSmtpDetails(a)
  {
  }
}
