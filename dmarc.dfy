/**
 * The decision logic of background/dmarc.js: which mail is a DMARC report,
 * how an attachment's file name selects the decompressor, and how each
 * `<record>` of an aggregate report is classified before it is written.
 *
 * Every XML element reaches the code through xml2js, which turns each child
 * element into an array of its occurrences; `XmlValue` keeps that shape.
 */
module Dmarc {
  import opened Base
  import opened Decimal
  import opened Text

  // ---------------------------------------------------------------------
  // isdmarc (lines 45-49)

  /** The parts of a Microsoft Graph message the filter reads. */
  datatype Email = Email(senderName: string, senderAddress: string, subject: string)

  const Keyword: string := "dmarc"

  predicate IsDmarc(e: Email) {
    Includes(Lowercase(e.senderName), Keyword) ||
    Includes(Lowercase(e.senderAddress), Keyword) ||
    Includes(Lowercase(e.subject), Keyword)
  }

  // ---------------------------------------------------------------------
  // unarchiveBuffer (lines 25-43)

  type Bytes = seq<bv8>

  /** The decompressors of `fflate`, which the model does not open up. */
  datatype Decompressors = Decompressors(
    unzip: Bytes -> Result<map<string, Bytes>, string>,
    gunzip: Bytes -> Result<Bytes, string>)

  const UnsupportedFormat: string := "Unsupported file format"

  /** `filename.split('.').pop().toLowerCase()` */
  function Extension(filename: string): (ext: string)
    ensures |ext| <= |filename|
    ensures '.' !in ext
  {
    Lowercase(AfterLastDot(filename))
  }

  /** `filename.slice(0, -3)`: empty when the name is shorter than three characters. */
  function GzKey(filename: string): (key: string)
    ensures |filename| >= 3 ==> key + filename[|filename| - 3..] == filename
    ensures |filename| < 3 ==> key == []
  {
    if |filename| >= 3 then filename[..|filename| - 3] else []
  }

  /** The files an attachment holds, by name; `content` is the attachment already decoded from base64. */
  function UnarchiveBuffer(tools: Decompressors, content: Bytes, filename: string): (r: Result<map<string, Bytes>, string>)
    ensures Extension(filename) !in {"zip", "gz"} ==> r == Err(UnsupportedFormat)
    ensures Extension(filename) == "zip" ==> r == tools.unzip(content)
    ensures Extension(filename) == "gz" ==>
      (tools.gunzip(content).Err? ==> r == Err(tools.gunzip(content).error)) &&
      (tools.gunzip(content).Ok? ==> r.Ok? && r.value.Keys == {GzKey(filename)} && r.value[GzKey(filename)] == tools.gunzip(content).value)
  {
    var ext := Extension(filename);
    if ext == "zip" then tools.unzip(content)
    else if ext == "gz" then
      match tools.gunzip(content)
      case Ok(data) => Ok(map[GzKey(filename) := data])
      case Err(e) => Err(e)
    else Err(UnsupportedFormat)
  }

  // ---------------------------------------------------------------------
  // SPF and DKIM results (lines 77-78)

  /** An xml2js value: the text of a leaf element, or the array xml2js makes of an element's occurrences. */
  datatype XmlValue = XText(text: string) | XArray(items: seq<XmlValue>)

  /** One `<spf>` or `<dkim>` entry of `<auth_results>`; `result` is absent when the entry has no `<result>`. */
  datatype AuthEntry = AuthEntry(result: Option<XmlValue>)

  /** `auth_results[0].spf.reduce((pf, obj) => fails(obj) ? 'fail' : pf, 'pass')`, folding from the left. */
  function AuthResult(entries: seq<AuthEntry>, fails: AuthEntry -> bool): (r: string)
    ensures r == "pass" || r == "fail"
    decreases |entries|
  {
    if entries == [] then "pass"
    else
      var n := |entries| - 1;
      if fails(entries[n]) then "fail" else AuthResult(entries[..n], fails)
  }

  /** `obj.result === 'fail'`: compares xml2js's array with a string. */
  predicate FailsAsWritten(e: AuthEntry) {
    e.result == Some(XText("fail"))
  }

  /** The text of `<result>`, what `obj.result[0]` reads. */
  function ResultText(e: AuthEntry): (t: Option<string>)
    ensures t.Some? ==> e.result.Some? && e.result.value.XArray? && |e.result.value.items| > 0
  {
    match e.result
    case Some(XArray(items)) =>
      if |items| > 0 && items[0].XText? then Some(items[0].text) else None
    case _ => None
  }

  /** `obj.result[0] === 'fail'` */
  predicate Fails(e: AuthEntry) {
    ResultText(e) == Some("fail")
  }

  /** What xml2js produces for an entry: its `result` is an array whenever it is present. */
  predicate XmlShaped(e: AuthEntry) {
    e.result.None? || e.result.value.XArray?
  }

  // ---------------------------------------------------------------------
  // Disposition, severity and action (lines 83-91)

  datatype Severity = High | Medium | Low

  /** Lines 83-84: a missing or empty disposition is derived from the two results. */
  function Disposition(given: Option<string>, dkim: string, spf: string): (d: string)
    ensures given.Some? && given.value != "" ==> d == given.value
    ensures (given.None? || given.value == "") ==> (d == "pass" <==> dkim == "pass" && spf == "pass")
    ensures (given.None? || given.value == "") ==> d in {"pass", "fail"}
  {
    if given.None? || given.value == "" then
      (if dkim == "pass" && spf == "pass" then "pass" else "fail")
    else given.value
  }

  /**
   * Lines 85-90, with the disposition treated as refused when it is
   * `rejectWord`: dmarc.js compares with "rejected", the DMARC
   * aggregate-report schema (appendix C of RFC 7489) spells it "reject".
   */
  function Classify(rejectWord: string, disposition: string, dkim: string, spf: string): Severity {
    if disposition == rejectWord || disposition == "quarantine" || (dkim == "fail" && spf == "fail") then High
    else if dkim == "fail" || spf == "fail" || disposition == "none" then Medium
    else Low
  }

  function SeverityAsWritten(disposition: string, dkim: string, spf: string): Severity {
    Classify("rejected", disposition, dkim, spf)
  }

  function SeverityOf(disposition: string, dkim: string, spf: string): Severity {
    Classify("reject", disposition, dkim, spf)
  }

  /** How a record's results are read: the test for a failing entry, and the disposition rated as refused. */
  datatype Rules = Rules(fails: AuthEntry -> bool, rejectWord: string)

  /** Lines 77-78 and 85 as written. */
  const AsWritten: Rules := Rules(FailsAsWritten, "rejected")

  /** The same lines reading `obj.result[0]` and the disposition 'reject'. */
  const Intended: Rules := Rules(Fails, "reject")

  /** Line 91 */
  predicate ActionRequired(severity: Severity, messageCount: int) {
    severity == High || messageCount > 1000
  }

  // ---------------------------------------------------------------------
  // One record (lines 71-91)

  /** `${report_id}-${index}` */
  function RecordId(reportId: string, index: nat): (id: string)
    ensures |id| > |reportId| && id[..|reportId|] == reportId && id[|reportId|] == '-'
  {
    reportId + "-" + NatToString(index)
  }

  /**
   * The fields of one `<record>`. The SPF and DKIM lists are absent when
   * the record has no such element; `disposition` is absent when
   * `policy_evaluated` or its `disposition` is.
   */
  datatype RecordXml = RecordXml(
    sourceIp: string,
    headerFrom: string,
    disposition: Option<string>,
    count: int,
    spf: Option<seq<AuthEntry>>,
    dkim: Option<seq<AuthEntry>>)

  /** The report-wide fields and the records of one aggregate report. */
  datatype Report = Report(reportId: string, begin: int, orgName: string, policy: string, records: seq<RecordXml>)

  /** The row handed to `writeDMARCRecord`. */
  datatype DmarcRecord = DmarcRecord(
    id: string,
    timestamp: int,
    sourceIp: string,
    domain: string,
    disposition: string,
    spfResult: string,
    dkimResult: string,
    messageCount: int,
    reportedBy: string,
    policyMode: string,
    severity: Severity,
    actionRequired: bool)

  /**
   * The record at `index` read by `rules`, or `None` when building it
   * throws (`reduce` on a missing list), which the loop logs and skips.
   */
  function RecordOf(rules: Rules, report: Report, index: nat): (r: Option<DmarcRecord>)
    requires index < |report.records|
    ensures r.Some? <==> report.records[index].spf.Some? && report.records[index].dkim.Some?
    ensures r.Some? ==> r.value.id == RecordId(report.reportId, index)
  {
    var x := report.records[index];
    if x.spf.None? || x.dkim.None? then None
    else
      var spf := AuthResult(x.spf.value, rules.fails);
      var dkim := AuthResult(x.dkim.value, rules.fails);
      var disposition := Disposition(x.disposition, dkim, spf);
      var severity := Classify(rules.rejectWord, disposition, dkim, spf);
      Some(DmarcRecord(RecordId(report.reportId, index), report.begin * 1000, x.sourceIp, x.headerFrom,
                       disposition, spf, dkim, x.count, report.orgName, report.policy,
                       severity, ActionRequired(severity, x.count)))
  }

  /** The records written for the first `n` `<record>` elements, in order. */
  function Written(rules: Rules, report: Report, n: nat): (w: seq<DmarcRecord>)
    requires n <= |report.records|
    ensures |w| <= n
  {
    if n == 0 then []
    else Written(rules, report, n - 1) + (match RecordOf(rules, report, n - 1) case Some(r) => [r] case None => [])
  }

  /** The loop of lines 69-96 as written, with `writeDMARCRecord` collecting into `written`. */
  method ProcessReport(report: Report) returns (written: seq<DmarcRecord>)
    ensures written == Written(AsWritten, report, |report.records|)
  {
    written := [];
    for index := 0 to |report.records|
      invariant written == Written(AsWritten, report, index)
    {
      var r := RecordOf(AsWritten, report, index);
      if r.Some? {
        written := written + [r.value];
      }
    }
  }
}
