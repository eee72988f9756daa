/** What the DMARC classification promises, and where the code as written departs from it. */
module DmarcProps {
  import opened Base
  import opened Decimal
  import opened Text
  import opened Dmarc

  // ---------------------------------------------------------------------
  // isdmarc

  /** A message is a DMARC report exactly when "dmarc" occurs, in any case, in its sender name, sender address or subject. */
  lemma IsDmarcExactly(e: Email)
    ensures IsDmarc(e) <==>
      (exists i :: FoldedAt(e.senderName, Keyword, i)) ||
      (exists i :: FoldedAt(e.senderAddress, Keyword, i)) ||
      (exists i :: FoldedAt(e.subject, Keyword, i))
  {
    IncludesFolded(e.senderName, Keyword);
    IncludesFolded(e.senderAddress, Keyword);
    IncludesFolded(e.subject, Keyword);
  }

  /** Lower-casing the message first does not change the verdict. */
  lemma IsDmarcIgnoresCase(e: Email)
    ensures IsDmarc(e) == IsDmarc(Email(Lowercase(e.senderName), Lowercase(e.senderAddress), Lowercase(e.subject)))
  {
    LowercaseIdempotent(e.senderName);
    LowercaseIdempotent(e.senderAddress);
    LowercaseIdempotent(e.subject);
  }

  // ---------------------------------------------------------------------
  // unarchiveBuffer

  /** The extension of `base.ext`, for an `ext` without a dot, is `ext`. */
  lemma {:induction false} AfterLastDotAppend(base: string, ext: string)
    requires '.' !in ext
    ensures AfterLastDot(base + "." + ext) == ext
    decreases |ext|
  {
    if ext != [] {
      var n := |ext| - 1;
      AfterLastDotAppend(base, ext[..n]);
      assert (base + "." + ext)[..|base + "." + ext| - 1] == base + "." + ext[..n];
      assert ext == ext[..n] + [ext[n]];
    }
  }

  /** `name.gz`, in any case, unpacks to one file called `name`. */
  lemma GzArchiveNamesItsFile(tools: Decompressors, content: Bytes, name: string, ext: string)
    requires '.' !in ext && Lowercase(ext) == "gz"
    requires tools.gunzip(content).Ok?
    ensures UnarchiveBuffer(tools, content, name + "." + ext) == Ok(map[name := tools.gunzip(content).value])
  {
    var filename := name + "." + ext;
    AfterLastDotAppend(name, ext);
    assert Extension(filename) == "gz";
    assert |ext| == 2;
    assert GzKey(filename) == name by {
      assert |filename| - 3 == |name|;
      assert filename[..|name|] == name;
    }
    var data := tools.gunzip(content).value;
    assert tools.gunzip(content) == Ok(data);
  }

  /** The file a `gz` attachment unpacks to is its name up to the final `.` and two letters. */
  lemma GzKeyDropsExtension(filename: string)
    requires Extension(filename) == "gz" && |filename| >= 3
    ensures filename == GzKey(filename) + "." + filename[|filename| - 2..]
    ensures Lowercase(filename[|filename| - 2..]) == "gz"
  {
    var r := AfterLastDot(filename);
    assert |r| == 2;
    assert filename[|filename| - 3] == '.';
  }

  /** A name without a dot is its own extension. */
  lemma DotlessNameIsExtension(filename: string)
    requires '.' !in filename
    ensures Extension(filename) == Lowercase(filename)
  {
    assert forall i :: 0 <= i < |filename| ==> filename[i] in filename;
    AfterLastDotWhole(filename);
  }

  /** An attachment named like a bare "GZ" is taken for gzip and unpacks under an empty name. */
  lemma BareGzNameGivesEmptyKey(tools: Decompressors, content: Bytes)
    requires tools.gunzip(content).Ok?
    ensures UnarchiveBuffer(tools, content, "GZ") == Ok(map["" := tools.gunzip(content).value])
  {
    DotlessNameIsExtension("GZ");
  }

  // ---------------------------------------------------------------------
  // SPF and DKIM results

  /** The fold is "fail" exactly when some entry fails, and "pass" otherwise, also for no entries. */
  lemma {:induction false} AuthResultFails(entries: seq<AuthEntry>, fails: AuthEntry -> bool)
    ensures AuthResult(entries, fails) == "fail" <==> exists i :: 0 <= i < |entries| && fails(entries[i])
    ensures AuthResult(entries, fails) == "pass" <==> forall i :: 0 <= i < |entries| ==> !fails(entries[i])
    decreases |entries|
  {
    if entries != [] {
      var n := |entries| - 1;
      AuthResultFails(entries[..n], fails);
      assert forall i :: 0 <= i < n ==> entries[..n][i] == entries[i];
    }
  }

  /** As written, the fold reports "pass" for every list xml2js can produce. */
  lemma AuthResultAsWrittenPasses(entries: seq<AuthEntry>)
    requires forall i :: 0 <= i < |entries| ==> XmlShaped(entries[i])
    ensures AuthResult(entries, FailsAsWritten) == "pass"
  {
    AuthResultFails(entries, FailsAsWritten);
  }

  /** A failing SPF check as xml2js delivers it: passed as written, failed as intended. */
  lemma FailingEntryPassesAsWritten()
    ensures var e := AuthEntry(Some(XArray([XText("fail")])));
      XmlShaped(e) && AuthResult([e], FailsAsWritten) == "pass" && AuthResult([e], Fails) == "fail"
  {
    var e := AuthEntry(Some(XArray([XText("fail")])));
    assert [e][..0] == [];
  }

  // ---------------------------------------------------------------------
  // Disposition and severity

  function Rank(s: Severity): nat {
    match s
    case Low => 0
    case Medium => 1
    case High => 2
  }

  /** Without a reported disposition, the severity follows from the two results alone. */
  lemma DerivedDispositionSeverity(given: Option<string>, dkim: string, spf: string)
    requires given.None? || given.value == ""
    requires dkim in {"pass", "fail"} && spf in {"pass", "fail"}
    ensures var s := SeverityOf(Disposition(given, dkim, spf), dkim, spf);
      && (s == High <==> dkim == "fail" && spf == "fail")
      && (s == Medium <==> (dkim == "fail") != (spf == "fail"))
      && (s == Low <==> dkim == "pass" && spf == "pass")
  {
  }

  /** A check turning from pass to fail never lowers the severity. */
  lemma SeverityMonotone(disposition: string, dkim: string, spf: string, dkim2: string, spf2: string)
    requires dkim2 == dkim || dkim2 == "fail"
    requires spf2 == spf || spf2 == "fail"
    ensures Rank(SeverityOf(disposition, dkim, spf)) <= Rank(SeverityOf(disposition, dkim2, spf2))
  {
  }

  /** The classification dmarc.js computes and the intended one differ only on the dispositions "reject" and "rejected". */
  lemma SeverityAgreesElsewhere(disposition: string, dkim: string, spf: string)
    requires disposition != "reject" && disposition != "rejected"
    ensures SeverityAsWritten(disposition, dkim, spf) == SeverityOf(disposition, dkim, spf)
  {
  }

  /** A message the receiver rejected, with both checks passing: Low as written, High as intended. */
  lemma RejectedMessageRatedLow()
    ensures SeverityAsWritten("reject", "pass", "pass") == Low
    ensures SeverityOf("reject", "pass", "pass") == High
  {
  }

  // ---------------------------------------------------------------------
  // One record

  /** How a written record's fields follow from its `<record>`, under either reading. */
  lemma RecordClassified(rules: Rules, report: Report, index: nat)
    requires index < |report.records|
    ensures var x := report.records[index];
      RecordOf(rules, report, index).Some? ==>
        var r := RecordOf(rules, report, index).value;
        && (r.spfResult == "fail" <==> exists i :: 0 <= i < |x.spf.value| && rules.fails(x.spf.value[i]))
        && (r.dkimResult == "fail" <==> exists i :: 0 <= i < |x.dkim.value| && rules.fails(x.dkim.value[i]))
        && (r.spfResult == "pass" <==> r.spfResult != "fail")
        && (r.dkimResult == "pass" <==> r.dkimResult != "fail")
        && r.severity == Classify(rules.rejectWord, r.disposition, r.dkimResult, r.spfResult)
        && (r.actionRequired <==> r.severity == High || r.messageCount > 1000)
        && r.messageCount == x.count && r.timestamp == report.begin * 1000
  {
    var x := report.records[index];
    if RecordOf(rules, report, index).Some? {
      AuthResultFails(x.spf.value, rules.fails);
      AuthResultFails(x.dkim.value, rules.fails);
    }
  }

  /** The entries of a list as xml2js delivers them. */
  predicate ListShaped(list: Option<seq<AuthEntry>>) {
    list.Some? ==> forall i :: 0 <= i < |list.value| ==> XmlShaped(list.value[i])
  }

  /**
   * As written, every record xml2js can deliver reports SPF and DKIM
   * "pass", whatever its entries say, and its severity and disposition
   * follow from the reported disposition alone.
   */
  lemma RecordAsWrittenPasses(report: Report, index: nat)
    requires index < |report.records|
    requires ListShaped(report.records[index].spf) && ListShaped(report.records[index].dkim)
    ensures RecordOf(AsWritten, report, index).Some? ==>
      var r := RecordOf(AsWritten, report, index).value;
      && r.spfResult == "pass" && r.dkimResult == "pass"
      && r.disposition == Disposition(report.records[index].disposition, "pass", "pass")
      && r.severity == SeverityAsWritten(r.disposition, "pass", "pass")
  {
    var x := report.records[index];
    if x.spf.Some? && x.dkim.Some? {
      AuthResultAsWrittenPasses(x.spf.value);
      AuthResultAsWrittenPasses(x.dkim.value);
    }
  }

  /** The entries of a list that pass under the corrected reading. */
  predicate ListPasses(list: Option<seq<AuthEntry>>) {
    list.Some? ==> forall i :: 0 <= i < |list.value| ==> !Fails(list.value[i])
  }

  /**
   * Where no entry fails and the receiver reported neither 'reject' nor
   * 'rejected', the reading as written and the corrected one build the
   * same record.
   */
  lemma RecordsAgree(report: Report, index: nat)
    requires index < |report.records|
    requires ListShaped(report.records[index].spf) && ListShaped(report.records[index].dkim)
    requires ListPasses(report.records[index].spf) && ListPasses(report.records[index].dkim)
    requires report.records[index].disposition != Some("reject") && report.records[index].disposition != Some("rejected")
    ensures RecordOf(AsWritten, report, index) == RecordOf(Intended, report, index)
  {
    var x := report.records[index];
    if x.spf.Some? && x.dkim.Some? {
      AuthResultAsWrittenPasses(x.spf.value);
      AuthResultAsWrittenPasses(x.dkim.value);
      AuthResultFails(x.spf.value, Fails);
      AuthResultFails(x.dkim.value, Fails);
      var d := Disposition(x.disposition, "pass", "pass");
      SeverityAgreesElsewhere(d, "pass", "pass");
    }
  }

  /** Records of one report at different positions get different ids. */
  lemma RecordIdsDistinct(reportId: string, i: nat, j: nat)
    requires i != j
    ensures RecordId(reportId, i) != RecordId(reportId, j)
  {
    var n := |reportId| + 1;
    assert RecordId(reportId, i)[n..] == NatToString(i);
    assert RecordId(reportId, j)[n..] == NatToString(j);
    NatToStringInjective(i, j);
  }

  /** Every record written for the first `n` elements carries the id of one of them. */
  lemma {:induction false} WrittenFrom(rules: Rules, report: Report, n: nat)
    requires n <= |report.records|
    ensures forall k :: 0 <= k < |Written(rules, report, n)| ==>
      exists i :: 0 <= i < n && Written(rules, report, n)[k].id == RecordId(report.reportId, i)
  {
    if n > 0 {
      WrittenFrom(rules, report, n - 1);
      var w := Written(rules, report, n - 1);
      var all := Written(rules, report, n);
      forall k | 0 <= k < |all|
        ensures exists i :: 0 <= i < n && all[k].id == RecordId(report.reportId, i)
      {
        if k < |w| {
          assert all[k] == w[k];
          var i :| 0 <= i < n - 1 && w[k].id == RecordId(report.reportId, i);
        } else {
          assert all[k] == RecordOf(rules, report, n - 1).value;
        }
      }
    } else {
      assert Written(rules, report, n) == [];
    }
  }

  /** The records written for one report have distinct ids. */
  lemma {:induction false} WrittenIdsDistinct(rules: Rules, report: Report, n: nat)
    requires n <= |report.records|
    ensures forall a, b :: 0 <= a < b < |Written(rules, report, n)| ==> Written(rules, report, n)[a].id != Written(rules, report, n)[b].id
  {
    if n > 0 {
      WrittenIdsDistinct(rules, report, n - 1);
      WrittenFrom(rules, report, n - 1);
      var w := Written(rules, report, n - 1);
      var all := Written(rules, report, n);
      assert forall k :: 0 <= k < |w| ==> all[k] == w[k];
      if |all| > |w| {
        forall a | 0 <= a < |w|
          ensures all[a].id != all[|w|].id
        {
          var i :| 0 <= i < n - 1 && w[a].id == RecordId(report.reportId, i);
          RecordIdsDistinct(report.reportId, i, n - 1);
        }
      }
    }
  }

  /** The record built for element `i` is among those written for the first `n`. */
  lemma {:induction false} WrittenHas(rules: Rules, report: Report, n: nat, i: nat)
    requires i < n <= |report.records| && RecordOf(rules, report, i).Some?
    ensures RecordOf(rules, report, i).value in Written(rules, report, n)
    decreases n
  {
    if i < n - 1 {
      WrittenHas(rules, report, n - 1, i);
    }
  }

  /** Each record written for the first `n` elements was built from one of them. */
  lemma {:induction false} WrittenOnly(rules: Rules, report: Report, n: nat, r: DmarcRecord)
    requires n <= |report.records| && r in Written(rules, report, n)
    ensures exists i :: 0 <= i < n && RecordOf(rules, report, i) == Some(r)
    decreases n
  {
    if r in Written(rules, report, n - 1) {
      WrittenOnly(rules, report, n - 1, r);
    } else {
      assert RecordOf(rules, report, n - 1) == Some(r);
    }
  }

  /** Every `<record>` with both result lists is written, and only those are. */
  lemma WrittenComplete(rules: Rules, report: Report, n: nat)
    requires n <= |report.records|
    ensures forall i :: 0 <= i < n && RecordOf(rules, report, i).Some? ==> RecordOf(rules, report, i).value in Written(rules, report, n)
    ensures forall r :: r in Written(rules, report, n) ==> exists i :: 0 <= i < n && RecordOf(rules, report, i) == Some(r)
  {
    forall i | 0 <= i < n && RecordOf(rules, report, i).Some?
      ensures RecordOf(rules, report, i).value in Written(rules, report, n)
    {
      WrittenHas(rules, report, n, i);
    }
    forall r | r in Written(rules, report, n)
      ensures exists i :: 0 <= i < n && RecordOf(rules, report, i) == Some(r)
    {
      WrittenOnly(rules, report, n, r);
    }
  }

  /** As written, every record the loop writes for a report xml2js delivered reports SPF and DKIM "pass". */
  lemma WrittenAsWrittenPasses(report: Report)
    requires forall i :: 0 <= i < |report.records| ==> ListShaped(report.records[i].spf) && ListShaped(report.records[i].dkim)
    ensures forall r :: r in Written(AsWritten, report, |report.records|) ==> r.spfResult == "pass" && r.dkimResult == "pass"
  {
    forall r | r in Written(AsWritten, report, |report.records|)
      ensures r.spfResult == "pass" && r.dkimResult == "pass"
    {
      WrittenOnly(AsWritten, report, |report.records|, r);
      var i :| 0 <= i < |report.records| && RecordOf(AsWritten, report, i) == Some(r);
      RecordAsWrittenPasses(report, i);
    }
  }
}
