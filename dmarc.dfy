/**
 * DMARC policy lookup of `check_dmarc`: one TXT query for `_dmarc.<domain>` (the record
 * location of section 6.1 of RFC 7489), then a scan of the answers in order. A record is
 * classified by substring tests in a fixed priority order (`p=none`, then `p=quarantine`,
 * then `p=reject`), not by the tag grammar of section 6.4 of RFC 7489.
 */
module Dmarc {
  import opened Wrappers
  import opened Text

  /** The one DNS question the resolver is asked. */
  datatype DnsQuery = DnsQuery(name: string, rtype: string)

  /** What the resolver does with the question: TXT strings already joined per record, or an exception. */
  datatype TxtLookup =
    | Answer(records: seq<string>)
    | NxDomain
    | NoAnswer
    | ResolverError(message: string)

  datatype Policy = PolicyNone | Quarantine | Reject
  {
    /** The string `check_dmarc` returns for this policy. */
    function Name(): string
    {
      match this
      case PolicyNone => "none"
      case Quarantine => "quarantine"
      case Reject => "reject"
    }

    /** The substring whose presence selects this policy. */
    function Tag(): string
    {
      match this
      case PolicyNone => NoneTag
      case Quarantine => QuarantineTag
      case Reject => RejectTag
    }
  }

  /** The pair `(policy, record)` returned by `check_dmarc`; `policy == None` is Python's `None`. */
  datatype Verdict = Verdict(policy: Option<Policy>, record: string)
  {
    /**
     * The first element of the pair as the caller sees it: the policy's string, or None.
     * The string is the tag that selected the policy without its `p=`.
     */
    function PolicyName(): (r: Option<string>)
      ensures r.Some? <==> policy.Some?
      ensures r.Some? ==> policy.value.Tag() == "p=" + r.value
    {
      if policy.Some? then Some(policy.value.Name()) else None
    }
  }

  const DmarcPrefix := "_dmarc."
  const VersionTag := "v=DMARC1"
  const NoRecordMessage := "No DMARC record found"
  const ErrorPrefix := "Error checking DMARC: "
  const NoneTag := "p=none"
  const QuarantineTag := "p=quarantine"
  const RejectTag := "p=reject"

  function DmarcQuery(domain: string): DnsQuery
  {
    DnsQuery(DmarcPrefix + domain, "TXT")
  }

  /** Distinct domains are looked up under distinct names, and only TXT is asked for. */
  lemma DmarcQueryNames(d1: string, d2: string)
    ensures DmarcQuery(d1).rtype == "TXT"
    ensures DmarcQuery(d1).name[..|DmarcPrefix|] == DmarcPrefix
    ensures DmarcQuery(d1).name[|DmarcPrefix|..] == d1
    ensures DmarcQuery(d1) == DmarcQuery(d2) ==> d1 == d2
  {
  }

  /** The policy one TXT record yields, if any; `None` lets the scan go on to the next record. */
  function ClassifyRecord(record: string): (p: Option<Policy>)
    ensures p.Some? ==> Contains(record, VersionTag) && Contains(record, p.value.Tag())
    ensures p == Some(Quarantine) ==> !Contains(record, PolicyNone.Tag())
    ensures p == Some(Reject) ==> !Contains(record, PolicyNone.Tag()) && !Contains(record, Quarantine.Tag())
    ensures p.None? ==>
              !Contains(record, VersionTag) ||
              (!Contains(record, NoneTag) && !Contains(record, QuarantineTag) && !Contains(record, RejectTag))
  {
    if !Contains(record, VersionTag) then None
    else if Contains(record, NoneTag) then Some(PolicyNone)
    else if Contains(record, QuarantineTag) then Some(Quarantine)
    else if Contains(record, RejectTag) then Some(Reject)
    else None
  }

  /** Record `i` is the first one in answer order that yields a policy. */
  predicate FirstDecisive(records: seq<string>, i: nat)
  {
    i < |records| &&
    ClassifyRecord(records[i]).Some? &&
    forall j | 0 <= j < i :: ClassifyRecord(records[j]).None?
  }

  /** The policy and verbatim record of the first decisive record, if there is one. */
  function ScanRecords(records: seq<string>): (r: Option<(Policy, string)>)
    ensures r.None? <==> forall j | 0 <= j < |records| :: ClassifyRecord(records[j]).None?
    ensures r.Some? ==>
              exists i: nat | i < |records| ::
                FirstDecisive(records, i) && r.value == (ClassifyRecord(records[i]).value, records[i])
  {
    if records == [] then None
    else
      match ClassifyRecord(records[0])
      case Some(p) =>
        assert FirstDecisive(records, 0);
        Some((p, records[0]))
      case None =>
        var r := ScanRecords(records[1..]);
        if r.Some? then
          var i: nat :| i < |records[1..]| && FirstDecisive(records[1..], i) &&
                        r.value == (ClassifyRecord(records[1..][i]).value, records[1..][i]);
          assert FirstDecisive(records, i + 1);
          r
        else
          r
  }

  /** The whole outcome of `check_dmarc` for a given resolver outcome. */
  function DecideVerdict(lookup: TxtLookup): Verdict
  {
    match lookup
    case Answer(records) =>
      (match ScanRecords(records)
       case Some((p, record)) => Verdict(Some(p), record)
       case None => Verdict(None, NoRecordMessage))
    case NxDomain => Verdict(None, NoRecordMessage)
    case NoAnswer => Verdict(None, NoRecordMessage)
    case ResolverError(message) => Verdict(None, ErrorPrefix + message)
  }

  /**
   * `check_dmarc(domain)`: asks `resolve` the DMARC question and scans the answers in
   * order, returning at the first record that yields a policy. The pair Python returns is
   * `(Verdict(policy, record).PolicyName(), record)`.
   */
  method CheckDmarc(domain: string, resolve: DnsQuery -> TxtLookup) returns (policy: Option<Policy>, record: string)
    ensures Verdict(policy, record) == DecideVerdict(resolve(DmarcQuery(domain)))
  {
    var lookup := resolve(DmarcQuery(domain));
    match lookup {
      case Answer(answers) =>
        var i := 0;
        while i < |answers|
          invariant 0 <= i <= |answers|
          invariant ScanRecords(answers) == ScanRecords(answers[i..])
        {
          var rdata := answers[i];
          ScanStep(answers, i);
          if Contains(rdata, VersionTag) {
            if Contains(rdata, NoneTag) {
              return Some(PolicyNone), rdata;
            } else if Contains(rdata, QuarantineTag) {
              return Some(Quarantine), rdata;
            } else if Contains(rdata, RejectTag) {
              return Some(Reject), rdata;
            }
          }
          i := i + 1;
        }
        return None, NoRecordMessage;
      case NxDomain =>
        return None, NoRecordMessage;
      case NoAnswer =>
        return None, NoRecordMessage;
      case ResolverError(message) =>
        return None, ErrorPrefix + message;
    }
  }

  /** One step of the scan: the record at `i` decides, or the scan goes on from `i + 1`. */
  lemma ScanStep(records: seq<string>, i: nat)
    requires i < |records|
    ensures ScanRecords(records[i..]) ==
              match ClassifyRecord(records[i])
              case Some(p) => Some((p, records[i]))
              case None => ScanRecords(records[i + 1..])
  {
  }

  /** The scan is compositional: a later batch of records only matters when the earlier one decides nothing. */
  lemma {:induction false} ScanConcat(xs: seq<string>, ys: seq<string>)
    ensures ScanRecords(xs + ys) == if ScanRecords(xs).Some? then ScanRecords(xs) else ScanRecords(ys)
  {
    if xs == [] {
      assert xs + ys == ys;
    } else {
      assert (xs + ys)[1..] == xs[1..] + ys;
      ScanConcat(xs[1..], ys);
    }
  }

  /**
   * Negative outcomes: no policy comes back exactly when the lookup failed or no record
   * yields one, and the message then says which of the two happened.
   */
  lemma AbsentPolicy(lookup: TxtLookup)
    ensures DecideVerdict(lookup).policy.None? <==>
              !lookup.Answer? || forall j | 0 <= j < |lookup.records| :: ClassifyRecord(lookup.records[j]).None?
    ensures DecideVerdict(lookup).policy.None? && !lookup.ResolverError? ==>
              DecideVerdict(lookup).record == NoRecordMessage
    ensures lookup.ResolverError? ==> DecideVerdict(lookup) == Verdict(None, ErrorPrefix + lookup.message)
  {
  }

  /**
   * A policy comes back exactly when some record yields one, and then it is the first such
   * record's policy and the record itself verbatim.
   */
  lemma {:induction false} FirstRecordDecides(records: seq<string>, i: nat)
    requires FirstDecisive(records, i)
    ensures DecideVerdict(Answer(records)) == Verdict(ClassifyRecord(records[i]), records[i])
  {
    assert records == records[..i] + records[i..];
    ScanConcat(records[..i], records[i..]);
    assert forall j | 0 <= j < |records[..i]| :: ClassifyRecord(records[..i][j]).None?;
    assert records[i..][0] == records[i];
  }

  /** Because the test is containment, `sp=none` (the subdomain policy) also reads as `p=none`. */
  lemma SubdomainNoneReadsAsNone(record: string)
    requires Contains(record, VersionTag) && Contains(record, "sp=none")
    ensures ClassifyRecord(record) == Some(PolicyNone)
  {
    ContainsInMiddle("s", "p=none", "");
    assert "s" + "p=none" + "" == "sp=none";
    ContainsTransitive(record, "sp=none", "p=none");
  }

  /** A DMARC record written as its tag list: the tags joined by ';'. */
  function JoinTags(tags: seq<string>): string
  {
    if |tags| <= 1 then (if tags == [] then "" else tags[0])
    else tags[0] + [';'] + JoinTags(tags[1..])
  }

  lemma {:induction false} JoinedContains(tags: seq<string>, p: string)
    requires tags != [] && ';' !in p
    ensures Contains(JoinTags(tags), p) <==> exists k | 0 <= k < |tags| :: Contains(tags[k], p)
  {
    if |tags| > 1 {
      JoinedContains(tags[1..], p);
      ContainsAcrossSeparator(tags[0], ';', JoinTags(tags[1..]), p);
      if Contains(JoinTags(tags), p) {
        if !Contains(tags[0], p) {
          var k :| 0 <= k < |tags[1..]| && Contains(tags[1..][k], p);
          assert Contains(tags[k + 1], p);
        }
      }
      if k :| 0 <= k < |tags| && Contains(tags[k], p) {
        if k > 0 {
          assert Contains(tags[1..][k - 1], p);
        }
      }
    }
  }

  /**
   * Where a tag appears in the record does not matter: two records made of the same tags,
   * in any order, are classified alike.
   */
  lemma TagOrderIrrelevant(tags1: seq<string>, tags2: seq<string>)
    requires tags1 != [] && tags2 != []
    requires forall t :: t in tags1 <==> t in tags2
    ensures ClassifyRecord(JoinTags(tags1)) == ClassifyRecord(JoinTags(tags2))
  {
    forall p | p in [VersionTag, PolicyNone.Tag(), Quarantine.Tag(), Reject.Tag()]
      ensures Contains(JoinTags(tags1), p) <==> Contains(JoinTags(tags2), p)
    {
      JoinedContains(tags1, p);
      JoinedContains(tags2, p);
      if k :| 0 <= k < |tags1| && Contains(tags1[k], p) {
        assert tags1[k] in tags2;
      }
      if k :| 0 <= k < |tags2| && Contains(tags2[k], p) {
        assert tags2[k] in tags1;
      }
    }
  }

  /** A record publishing `p=reject` together with `sp=none` is reported as `none`. */
  lemma RejectWithSubdomainNone()
    ensures ClassifyRecord("v=DMARC1; p=reject; sp=none") == Some(PolicyNone)
  {
    ContainsInMiddle("", VersionTag, "; p=reject; sp=none");
    assert "" + VersionTag + "; p=reject; sp=none" == "v=DMARC1; p=reject; sp=none";
    ContainsInMiddle("v=DMARC1; p=reject; ", "sp=none", "");
    assert "v=DMARC1; p=reject; " + "sp=none" + "" == "v=DMARC1; p=reject; sp=none";
    SubdomainNoneReadsAsNone("v=DMARC1; p=reject; sp=none");
  }

  const QuarantineExample := "v=DMARC1; p=quarantine; rua=mailto:x@example.com"
  const QuarantineExampleTags := ["v=DMARC1", " p=quarantine", " rua=mailto:x@example.com"]

  /** The example record is its three tags joined by ';'. */
  lemma QuarantineExampleJoined()
    ensures QuarantineExample == JoinTags(QuarantineExampleTags)
  {
  }

  /** Which of the example's tags contain which patterns. */
  lemma QuarantineExampleContents()
    ensures Contains(QuarantineExampleTags[0], VersionTag)
    ensures Contains(QuarantineExampleTags[1], QuarantineTag)
    ensures forall k | 0 <= k < 3 :: !Contains(QuarantineExampleTags[k], NoneTag)
  {
    var tags := QuarantineExampleTags;
    assert Contains(tags[0], VersionTag) by {
      ContainsInMiddle("", VersionTag, "");
      assert "" + VersionTag + "" == tags[0];
    }
    assert Contains(tags[1], QuarantineTag) by {
      ContainsInMiddle(" ", QuarantineTag, "");
      assert " " + QuarantineTag + "" == tags[1];
    }
    MissingCharacter(tags[0], NoneTag, 'o');
    MissingCharacter(tags[1], NoneTag, 'o');
    MissingCharacter(tags[2], NoneTag, 'n');
  }

  /** A lone quarantine record is reported as `quarantine`, verbatim. */
  lemma QuarantineRecord()
    ensures DecideVerdict(Answer([QuarantineExample])) == Verdict(Some(Quarantine), QuarantineExample)
  {
    var tags := QuarantineExampleTags;
    QuarantineExampleJoined();
    QuarantineExampleContents();
    JoinedContains(tags, VersionTag);
    JoinedContains(tags, NoneTag);
    JoinedContains(tags, QuarantineTag);
    assert ClassifyRecord(QuarantineExample) == Some(Quarantine);
    FirstRecordDecides([QuarantineExample], 0);
  }
}
