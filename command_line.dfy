/** The stand-alone `main` of `main.rs`: it reads its arguments by position,
    downloads the Trusted List, walks it with its own copy of the event loop
    and writes one file per collected element that holds a certificate. The
    download is a parameter; the folder creation and the file writes become
    a plan of what is created and written, in order. */
module CommandLine {
  import opened Wrappers
  import opened Text
  import opened Cli
  import opened EventScan
  import opened Extractor

  const UsageMessage := "Usage: ca_extractor <service> <country> [--target_folder <target_folder>]"
  const TargetFolderFlag := "--target_folder"
  const DefaultTargetFolder := "."
  const InvalidServiceMessage := "Invalid service type. Must be 'QWAC' or 'QSealC'."

  /** What the download gave: the reader items of the body, or the failure
      of the request or of reading the body. */
  datatype Fetch =
    | Fetched(xml: seq<ReaderItem>)
    | RequestFailed(requestDetail: string)
    | ReadFailed(readDetail: string)

  /** The boxed error `main` returns. */
  datatype MainFailure =
    | RequestFailure(requestDetail: string)
    | ReadFailure(readDetail: string)
    | ParseFailure(parseDetail: string)

  datatype Ending =
    | Completed                     // `Ok(())` after the work
    | UsagePrinted(message: string) // `Ok(())` right after the usage line
    | Aborted(panic: Panic)
    | Failed(failure: MainFailure)

  datatype FileWrite = FileWrite(path: string, content: string)

  /** Everything a run does that outlives it: the URL it requests, the
      folder it creates, the files it writes, and how it ends. */
  datatype Run = Run(requestedUrl: Option<string>, createdFolder: Option<string>,
                     writes: seq<FileWrite>, ending: Ending)

  // ---------------------------------------------------------------------------
  // Argument selection

  /** The target folder: `args[4]` after the flag in position 3, `.`
      otherwise; indexing `args[4]` panics when the flag is last. */
  function TargetFolder(args: seq<string>): (r: Result<string, Panic>)
    ensures r.Failure? <==> |args| == 4 && args[3] == TargetFolderFlag
    ensures r.Failure? ==> r.error == IndexOutOfBounds(4, 4)
    ensures r.Success? && |args| > 3 && args[3] == TargetFolderFlag ==> r.value == args[4]
    ensures !(|args| > 3 && args[3] == TargetFolderFlag) ==> r == Success(DefaultTargetFolder)
  {
    if |args| > 3 && args[3] == TargetFolderFlag then
      if |args| > 4 then Success(args[4]) else Failure(IndexOutOfBounds(4, |args|))
    else Success(DefaultTargetFolder)
  }

  /** The service token match; `None` is the arm that panics. */
  function ServiceUriForToken(token: string): (uri: Option<string>)
    ensures uri == Some(WebsiteAuthenticationUri) <==> token == "QWAC"
    ensures uri == Some(ElectronicSealUri) <==> token == "QSealC"
    ensures uri.None? <==> token != "QWAC" && token != "QSealC"
  {
    if token == "QWAC" then Some(WebsiteAuthenticationUri)
    else if token == "QSealC" then Some(ElectronicSealUri)
    else None
  }

  /** The label of a service type, given as the token, selects the URI that
      `CertificateExtractor::new` assigns to that type. */
  lemma TokenOfLabelAgreesWithNew(service: ServiceType, country: string)
    ensures ServiceUriForToken(Label(service)) == Some(ServiceUri(service))
    ensures New(service, country).Success? ==>
      ServiceUriForToken(New(service, country).value.serviceType) == Some(New(service, country).value.serviceUri)
  {
  }

  // ---------------------------------------------------------------------------
  // The files

  /** `format!("{}/{}_{}.pem", target_folder, country, i)`. */
  function FileName(folder: string, country: string, i: nat): (name: string)
    ensures |name| > |folder| + |country| + 6
    ensures name[..|folder|] == folder && name[|folder|] == '/'
    ensures name[|folder| + 1..|folder| + 1 + |country|] == country
    ensures name[|folder| + 1 + |country|] == '_'
    ensures IsDigits(name[|folder| + |country| + 2..|name| - 4])
    ensures name[|name| - 4..] == ".pem"
  {
    folder + "/" + country + "_" + Decimal(i) + ".pem"
  }

  /** Different element indices name different files. */
  lemma FileNameInjective(folder: string, country: string, i: nat, j: nat)
    ensures FileName(folder, country, i) == FileName(folder, country, j) ==> i == j
  {
    if FileName(folder, country, i) == FileName(folder, country, j) {
      var p := folder + "/" + country + "_";
      var a, b := FileName(folder, country, i), FileName(folder, country, j);
      assert a == p + Decimal(i) + ".pem" && b == p + Decimal(j) + ".pem";
      assert |Decimal(i)| == |Decimal(j)|;
      assert Decimal(i) == a[|p|..|a| - 4];
      assert Decimal(j) == b[|p|..|b| - 4];
      DecimalInjective(i, j);
    }
  }

  /** The writes planned so far, and the panic that stopped the loop. */
  datatype WritePlan = WritePlan(writes: seq<FileWrite>, panic: Option<Panic>)

  /** One turn of the `enumerate` loop: element `i`, given what it yields. */
  function AddElement(plan: WritePlan, folder: string, country: string, i: nat,
                      out: FragmentOutcome): WritePlan
  {
    if plan.panic.Some? then plan
    else
      match out
      case NoCertificate => plan
      case Certificate(pem) => WritePlan(plan.writes + [FileWrite(FileName(folder, country, i), pem)], None)
      case FragmentPanic(p) => WritePlan(plan.writes, Some(p))
  }

  /** The `enumerate` loop as a fold: the index is the element's position
      among all collected elements. */
  function PlanWrites(folder: string, country: string, elements: seq<string>): (plan: WritePlan)
    ensures |plan.writes| <= |elements|
    ensures plan.panic.Some? ==> plan.panic.value.SliceIndexOrder? && plan.panic.value.start > plan.panic.value.end
    decreases |elements|
  {
    if elements == [] then WritePlan([], None)
    else
      var n := |elements| - 1;
      AddElement(PlanWrites(folder, country, elements[..n]), folder, country, n, FromFragment(elements[n]))
  }

  /** The contents of the writes, in order. */
  function Contents(writes: seq<FileWrite>): seq<string>
    decreases |writes|
  {
    if writes == [] then []
    else Contents(writes[..|writes| - 1]) + [writes[|writes| - 1].content]
  }

  lemma ContentsAppend(writes: seq<FileWrite>, w: FileWrite)
    ensures Contents(writes + [w]) == Contents(writes) + [w.content]
  {
    assert (writes + [w])[..|writes|] == writes;
  }

  /** The written contents are the certificates `extract_certificates`
      builds from the same elements, and both loops stop at the same panic. */
  lemma {:induction false} WritesAreExtractorCertificates(folder: string, country: string, elements: seq<string>)
    ensures PlanWrites(folder, country, elements).panic.None? <==> Harvest(elements).Harvested?
    ensures Harvest(elements).Harvested? ==>
      Contents(PlanWrites(folder, country, elements).writes) == Harvest(elements).certs
    ensures Harvest(elements).HarvestPanic? ==>
      PlanWrites(folder, country, elements).panic == Some(Harvest(elements).panic)
    decreases |elements|
  {
    if elements != [] {
      var n := |elements| - 1;
      WritesAreExtractorCertificates(folder, country, elements[..n]);
      var plan := PlanWrites(folder, country, elements[..n]);
      var out := FromFragment(elements[n]);
      if plan.panic.None? && out.Certificate? {
        ContentsAppend(plan.writes, FileWrite(FileName(folder, country, n), out.pem));
      }
    }
  }

  /** `w` writes the certificate of some element to the file named by that
      element's index. */
  ghost predicate WritesElement(folder: string, country: string, elements: seq<string>, w: FileWrite) {
    exists i :: 0 <= i < |elements| && FromFragment(elements[i]).Certificate?
                && w == FileWrite(FileName(folder, country, i), FromFragment(elements[i]).pem)
  }

  /** Every write is the certificate of the element whose index names the
      file. */
  lemma {:induction false} WritesNameTheirElement(folder: string, country: string, elements: seq<string>)
    ensures forall t :: 0 <= t < |PlanWrites(folder, country, elements).writes| ==>
      WritesElement(folder, country, elements, PlanWrites(folder, country, elements).writes[t])
    decreases |elements|
  {
    if elements != [] {
      var n := |elements| - 1;
      var init := elements[..n];
      WritesNameTheirElement(folder, country, init);
      var plan := PlanWrites(folder, country, init);
      var out := FromFragment(elements[n]);
      var writes := PlanWrites(folder, country, elements).writes;
      forall t | 0 <= t < |plan.writes|
        ensures WritesElement(folder, country, elements, plan.writes[t])
      {
        WritesElementGrows(folder, country, elements, plan.writes[t]);
      }
      if plan.panic.None? && out.Certificate? {
        var added := FileWrite(FileName(folder, country, n), out.pem);
        assert writes == plan.writes + [added];
        assert WritesElement(folder, country, elements, added);
      } else {
        assert writes == plan.writes;
      }
    }
  }

  lemma WritesElementGrows(folder: string, country: string, elements: seq<string>, w: FileWrite)
    requires elements != []
    requires WritesElement(folder, country, elements[..|elements| - 1], w)
    ensures WritesElement(folder, country, elements, w)
  {
    var init := elements[..|elements| - 1];
    var i :| 0 <= i < |init| && FromFragment(init[i]).Certificate?
             && w == FileWrite(FileName(folder, country, i), FromFragment(init[i]).pem);
    assert elements[i] == init[i];
  }

  /** Write `t` of `writes` puts the block of element `idx[t]` in the file
      named by `idx[t]`. */
  ghost predicate WritesAt(folder: string, country: string, elements: seq<string>,
                           idx: seq<nat>, writes: seq<FileWrite>) {
    |idx| == |writes|
    && forall t :: 0 <= t < |idx| ==>
         idx[t] < |elements| && FromFragment(elements[idx[t]]).Certificate?
         && writes[t] == FileWrite(FileName(folder, country, idx[t]), FromFragment(elements[idx[t]]).pem)
  }

  lemma WritesAtWiden(folder: string, country: string, elements: seq<string>,
                      idx: seq<nat>, writes: seq<FileWrite>)
    requires elements != []
    requires WritesAt(folder, country, elements[..|elements| - 1], idx, writes)
    ensures WritesAt(folder, country, elements, idx, writes)
  {
    var init := elements[..|elements| - 1];
    forall t | 0 <= t < |idx|
      ensures idx[t] < |elements| && FromFragment(elements[idx[t]]).Certificate?
              && writes[t] == FileWrite(FileName(folder, country, idx[t]), FromFragment(elements[idx[t]]).pem)
    {
      assert elements[idx[t]] == init[idx[t]];
    }
  }

  lemma WritesAtAppend(folder: string, country: string, elements: seq<string>,
                       idx: seq<nat>, writes: seq<FileWrite>, n: nat, pem: string)
    requires WritesAt(folder, country, elements, idx, writes)
    requires n < |elements| && FromFragment(elements[n]) == Certificate(pem)
    ensures WritesAt(folder, country, elements, idx + [n], writes + [FileWrite(FileName(folder, country, n), pem)])
  {
    var idx', writes' := idx + [n], writes + [FileWrite(FileName(folder, country, n), pem)];
    forall t | 0 <= t < |idx'|
      ensures idx'[t] < |elements| && FromFragment(elements[idx'[t]]).Certificate?
              && writes'[t] == FileWrite(FileName(folder, country, idx'[t]), FromFragment(elements[idx'[t]]).pem)
    {
      if t < |idx| {
        assert idx'[t] == idx[t] && writes'[t] == writes[t];
      }
    }
  }

  lemma {:induction false} PlanWritesAt(folder: string, country: string, elements: seq<string>)
    requires PlanWrites(folder, country, elements).panic.None?
    ensures WritesAt(folder, country, elements, CertificateIndices(elements),
                     PlanWrites(folder, country, elements).writes)
    decreases |elements|
  {
    if elements != [] {
      var init := elements[..|elements| - 1];
      assert PlanWrites(folder, country, init).panic.None?;
      PlanWritesAt(folder, country, init);
      var before := PlanWrites(folder, country, init).writes;
      WritesAtWiden(folder, country, elements, CertificateIndices(init), before);
      var out := FromFragment(elements[|elements| - 1]);
      if out.Certificate? {
        WritesAtAppend(folder, country, elements, CertificateIndices(init), before, |elements| - 1, out.pem);
      }
    }
  }

  /** Without a panic, write `t` goes to the file of the element at position
      `t` of `CertificateIndices`, which increase: files are written in
      element order. */
  lemma {:induction false} WritesInElementOrder(folder: string, country: string, elements: seq<string>)
    requires PlanWrites(folder, country, elements).panic.None?
    ensures |PlanWrites(folder, country, elements).writes| == |CertificateIndices(elements)|
    ensures forall t :: 0 <= t < |CertificateIndices(elements)| ==>
      CertificateIndices(elements)[t] < |elements|
      && FromFragment(elements[CertificateIndices(elements)[t]]).Certificate?
      && PlanWrites(folder, country, elements).writes[t]
         == FileWrite(FileName(folder, country, CertificateIndices(elements)[t]),
                      FromFragment(elements[CertificateIndices(elements)[t]]).pem)
    ensures forall s, t :: 0 <= s < t < |CertificateIndices(elements)| ==>
      CertificateIndices(elements)[s] < CertificateIndices(elements)[t]
  {
    PlanWritesAt(folder, country, elements);
    CertificateIndicesIncrease(elements);
  }

  /** An element without both tags gets no file: the numbering has a gap at
      its index. */
  lemma UntaggedElementLeavesGap(folder: string, country: string, elements: seq<string>, i: nat)
    requires i < |elements| && !HasBothTags(elements[i])
    ensures forall t :: 0 <= t < |PlanWrites(folder, country, elements).writes| ==>
      PlanWrites(folder, country, elements).writes[t].path != FileName(folder, country, i)
  {
    var writes := PlanWrites(folder, country, elements).writes;
    WritesNameTheirElement(folder, country, elements);
    FragmentOutcomes(elements[i]);
    forall t | 0 <= t < |writes|
      ensures writes[t].path != FileName(folder, country, i)
    {
      assert WritesElement(folder, country, elements, writes[t]);
      var j :| 0 <= j < |elements| && FromFragment(elements[j]).Certificate?
               && writes[t] == FileWrite(FileName(folder, country, j), FromFragment(elements[j]).pem);
      FileNameInjective(folder, country, i, j);
    }
  }

  // ---------------------------------------------------------------------------
  // main

  /** What `main` does with its arguments and the download. */
  function MainPlan(args: seq<string>, fetch: Fetch): (run: Run)
    ensures run.ending.UsagePrinted? <==> |args| < 3
    ensures run.requestedUrl.Some? <==>
      |args| >= 3 && TargetFolder(args).Success? && ServiceUriForToken(args[1]).Some?
    ensures run.requestedUrl.Some? ==> run.requestedUrl == Some(DownloadUrl(args[2]))
    ensures run.createdFolder.Some? ==> run.requestedUrl.Some? && fetch.Fetched?
    ensures run.writes != [] ==> run.createdFolder.Some?
    ensures run.ending.Failed? ==> run.writes == [] && run.createdFolder.None?
  {
    if |args| < 3 then Run(None, None, [], UsagePrinted(UsageMessage))
    else
      var service, country := args[1], args[2];
      match TargetFolder(args)
      case Failure(p) => Run(None, None, [], Aborted(p))
      case Success(folder) =>
        match ServiceUriForToken(service)
        case None => Run(None, None, [], Aborted(Explicit(InvalidServiceMessage)))
        case Some(_) =>
          var url := DownloadUrl(country);
          match fetch
          case RequestFailed(d) => Run(Some(url), None, [], Failed(RequestFailure(d)))
          case ReadFailed(d) => Run(Some(url), None, [], Failed(ReadFailure(d)))
          case Fetched(xml) =>
            match Scan(xml)
            case Failure(d) => Run(Some(url), None, [], Failed(ParseFailure(d)))
            case Success(st) =>
              if st.elements == [] then Run(Some(url), None, [], Completed)
              else
                var plan := PlanWrites(folder, country, st.elements);
                Run(Some(url), Some(folder), plan.writes,
                    if plan.panic.Some? then Aborted(plan.panic.value) else Completed)
  }

  /** The `enumerate` loop of `main`: element `k` that holds both tags is
      written to `<folder>/<country>_<k>.pem`. */
  method WriteCertificates(folder: string, country: string, elements: seq<string>) returns (plan: WritePlan)
    ensures plan == PlanWrites(folder, country, elements)
  {
    var writes: seq<FileWrite> := [];
    var k := 0;
    while k < |elements|
      invariant 0 <= k <= |elements|
      invariant PlanWrites(folder, country, elements[..k]) == WritePlan(writes, None)
    {
      assert elements[..k + 1][..k] == elements[..k];
      var out := FromFragment(elements[k]);
      assert PlanWrites(folder, country, elements[..k + 1])
          == AddElement(WritePlan(writes, None), folder, country, k, out);
      match out {
        case FragmentPanic(p) =>
          PlanPanicSticks(folder, country, elements, k + 1);
          return WritePlan(writes, Some(p));
        case Certificate(wrapped) =>
          writes := writes + [FileWrite(FileName(folder, country, k), wrapped)];
        case NoCertificate =>
      }
      k := k + 1;
    }
    assert elements[..k] == elements;
    return WritePlan(writes, None);
  }

  /** `main`: the arguments are read by position, the service token is
      matched, the list is downloaded and walked, and the files are
      written. */
  method RunMain(args: seq<string>, fetch: Fetch) returns (run: Run)
    ensures run == MainPlan(args, fetch)
  {
    if |args| < 3 {
      return Run(None, None, [], UsagePrinted(UsageMessage));
    }
    var service := args[1];
    var country := args[2];
    var targetFolder := DefaultTargetFolder;
    if |args| > 3 && args[3] == TargetFolderFlag {
      if |args| <= 4 {
        return Run(None, None, [], Aborted(IndexOutOfBounds(4, |args|)));
      }
      targetFolder := args[4];
    }
    if service != "QWAC" && service != "QSealC" {
      return Run(None, None, [], Aborted(Explicit(InvalidServiceMessage)));
    }
    var url := DownloadUrl(country);
    var xml: seq<ReaderItem>;
    match fetch {
      case RequestFailed(d) => return Run(Some(url), None, [], Failed(RequestFailure(d)));
      case ReadFailed(d) => return Run(Some(url), None, [], Failed(ReadFailure(d)));
      case Fetched(items) => xml := items;
    }
    var walk := WalkEvents(xml);
    if walk.Failure? {
      return Run(Some(url), None, [], Failed(ParseFailure(walk.error)));
    }
    var elements := walk.value.elements;
    if elements == [] {
      return Run(Some(url), None, [], Completed);
    }
    var plan := WriteCertificates(targetFolder, country, elements);
    var ending := if plan.panic.Some? then Aborted(plan.panic.value) else Completed;
    return Run(Some(url), Some(targetFolder), plan.writes, ending);
  }

  lemma {:induction false} PlanPanicSticks(folder: string, country: string, elements: seq<string>, k: int)
    requires 0 <= k <= |elements|
    requires PlanWrites(folder, country, elements[..k]).panic.Some?
    ensures PlanWrites(folder, country, elements) == PlanWrites(folder, country, elements[..k])
    decreases |elements| - k
  {
    if k < |elements| {
      assert elements[..k + 1][..k] == elements[..k];
      PlanPanicSticks(folder, country, elements, k + 1);
    } else {
      assert elements[..k] == elements;
    }
  }

  // ---------------------------------------------------------------------------
  // Properties of main

  /** With fewer than three arguments only the usage line is printed: no
      request, no folder, no file, and no error. */
  lemma FewArgumentsPrintUsage(args: seq<string>, fetch: Fetch)
    requires |args| < 3
    ensures MainPlan(args, fetch) == Run(None, None, [], UsagePrinted(UsageMessage))
  {
  }

  /** An unknown service token panics before anything is requested. */
  lemma UnknownTokenPanics(args: seq<string>, fetch: Fetch)
    requires |args| >= 3 && TargetFolder(args).Success?
    requires args[1] != "QWAC" && args[1] != "QSealC"
    ensures MainPlan(args, fetch) == Run(None, None, [], Aborted(Explicit(InvalidServiceMessage)))
  {
  }

  /** The folder is created exactly when the walk collected an element,
      and it is the selected target folder. */
  lemma FolderCreatedOnlyForElements(args: seq<string>, fetch: Fetch)
    ensures MainPlan(args, fetch).createdFolder.Some? <==>
      && |args| >= 3 && TargetFolder(args).Success? && ServiceUriForToken(args[1]).Some?
      && fetch.Fetched? && Scan(fetch.xml).Success? && Scan(fetch.xml).value.elements != []
    ensures MainPlan(args, fetch).createdFolder.Some? ==>
      MainPlan(args, fetch).createdFolder == Some(TargetFolder(args).value)
    ensures MainPlan(args, fetch).writes != [] ==> MainPlan(args, fetch).createdFolder.Some?
  {
  }

  /** A run that reaches the writes writes, in order, exactly the
      certificates `extract_certificates` returns for the same document,
      and writes nothing, still ending in `Ok(())`, when that call finds no
      certificate. */
  lemma MainWritesWhatExtractorReturns(args: seq<string>, xml: seq<ReaderItem>)
    requires |args| >= 3 && TargetFolder(args).Success? && ServiceUriForToken(args[1]).Some?
    requires Scan(xml).Success?
    ensures var run := MainPlan(args, Fetched(xml));
      match Extract(xml)
      case Extracted(certs) => Contents(run.writes) == certs && run.ending == Completed
      case Panicked(p) => run.ending == Aborted(p)
      case Rejected(_) => run.writes == [] && run.ending == Completed
  {
    var folder := TargetFolder(args).value;
    var elements := Scan(xml).value.elements;
    WritesAreExtractorCertificates(folder, args[2], elements);
  }
}
