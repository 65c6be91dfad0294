/** `CertificateExtractor` of `extractor.rs`: construction from a service
    type and a country code, and `extract_certificates`, which walks the
    reader events, collects the character content found under `TSPService`
    and turns each fragment that holds a certificate tag pair into a PEM
    block. */
module Extractor {
  import opened Wrappers
  import opened Text
  import opened Pem
  import opened Cli
  import opened Errors
  import opened EventScan

  // ---------------------------------------------------------------------------
  // Constants

  const WebsiteAuthenticationUri := "http://uri.etsi.org/TrstSvc/TrustedList/SvcInfoExt/ForWebSiteAuthentication"
  const ElectronicSealUri := "http://uri.etsi.org/TrstSvc/TrustedList/SvcInfoExt/ForeSeals"
  const DownloadEndpoint := "https://eidas.ec.europa.eu/efda/tl-browser/api/v1/browser/download/"
  const TslNamespace := "http://uri.etsi.org/02231/v2#"

  const OpenTag := "<tsl:X509Certificate>"
  const CloseTag := "</tsl:X509Certificate>"
  /** Where the payload slice starts, counted from the open tag. The tag is
      21 characters long, so the slice keeps the tag's last two, `e>`. */
  const PayloadOffset: nat := 19

  const NoCertificatesMessage := "No certificates found in the XML content"

  // ---------------------------------------------------------------------------
  // NamespaceContext

  const Namespaces: map<string, string> := map["tsl" := TslNamespace]

  /** `NamespaceContext::new().get_namespace_uri(prefix)`. */
  function NamespaceUri(prefix: string): (uri: Option<string>)
    ensures uri.Some? <==> prefix == "tsl"
    ensures uri.Some? ==> uri.value == TslNamespace
  {
    if prefix in Namespaces then Some(Namespaces[prefix]) else None
  }

  // ---------------------------------------------------------------------------
  // CertificateExtractor::new

  datatype CertificateExtractor =
    CertificateExtractor(country: string, serviceUri: string, serviceType: string)

  /** The service-information extension URI of a service type. */
  function ServiceUri(service: ServiceType): (uri: string)
    ensures uri == WebsiteAuthenticationUri <==> service == QWAC
    ensures uri == ElectronicSealUri <==> service == QSealC
  {
    match service
    case QWAC => WebsiteAuthenticationUri
    case QSealC => ElectronicSealUri
  }

  function CountryCodeMessage(country: string): string {
    "Invalid country code '" + country + "'. Must be a 2-letter ISO country code."
  }

  /** `CertificateExtractor::new`: the country code must be two bytes long;
      no list of countries is checked. */
  function New(service: ServiceType, country: string): (r: Result<CertificateExtractor, CaExtractorError>)
    ensures r.Failure? <==> Utf8Length(country) != 2
    ensures r.Failure? ==> r.error == InvalidCountryCode(CountryCodeMessage(country))
    ensures r.Success? ==> r.value.country == country
    ensures r.Success? ==> r.value.serviceUri == ServiceUri(service)
    ensures r.Success? ==> r.value.serviceType == Label(service)
  {
    if Utf8Length(country) != 2 then
      Failure(InvalidCountryCode(CountryCodeMessage(country)))
    else
      Success(CertificateExtractor(country, ServiceUri(service), Label(service)))
  }

  /** Every two-character ASCII code is accepted, every other ASCII length
      rejected. */
  lemma AsciiCountryCodes(service: ServiceType, country: string)
    requires IsAscii(country)
    ensures New(service, country).Success? <==> |country| == 2
  {
  }

  /** The check counts bytes, not characters: a single two-byte character
      passes it, and two such characters fail it. */
  lemma CountryLengthIsInBytes(service: ServiceType)
    ensures New(service, "\U{E9}").Success?
    ensures New(service, "\U{E9}\U{E9}").Failure?
  {
    assert Utf8Length("\U{E9}") == 2 by {
      assert "\U{E9}"[1..] == [];
    }
    assert Utf8Length("\U{E9}\U{E9}") == 4 by {
      assert "\U{E9}\U{E9}"[1..] == "\U{E9}";
      assert "\U{E9}"[1..] == [];
    }
  }

  // ---------------------------------------------------------------------------
  // fetch_xml_content: the URL only.

  /** The Trusted List download URL of a country. */
  function DownloadUrl(country: string): (url: string)
    ensures |url| == |DownloadEndpoint| + |country|
    ensures url[..|DownloadEndpoint|] == DownloadEndpoint
    ensures url[|DownloadEndpoint|..] == country
  {
    DownloadEndpoint + country
  }

  lemma DownloadUrlInjective(a: string, b: string)
    ensures DownloadUrl(a) == DownloadUrl(b) ==> a == b
  {
    if DownloadUrl(a) == DownloadUrl(b) {
      assert a == DownloadUrl(a)[|DownloadEndpoint|..];
    }
  }

  // ---------------------------------------------------------------------------
  // One collected fragment

  datatype FragmentOutcome =
    | NoCertificate
    | Certificate(pem: string)
    | FragmentPanic(panic: Panic)

  /** `.trim().replace([' ', '\n'], "")`. */
  function CleanPayload(slice: string): (body: string)
    ensures NoSpaceOrNewline(body)
    ensures |body| <= |slice|
  {
    RemoveSpacesAndNewlines(Trim(slice))
  }

  /** The body of the inner `if let` pair: first open tag, first close tag,
      slice from the open tag plus 19, clean, wrap. */
  function FromFragment(fragment: string): (out: FragmentOutcome)
    ensures out.FragmentPanic? ==> out.panic.SliceIndexOrder? && out.panic.start > out.panic.end
    ensures out.Certificate? ==> Between(out.pem).Some?
  {
    match Find(fragment, OpenTag)
    case None => NoCertificate
    case Some(certStart) =>
      match Find(fragment, CloseTag)
      case None => NoCertificate
      case Some(certEnd) =>
        if certStart + PayloadOffset > certEnd then
          FragmentPanic(SliceIndexOrder(certStart + PayloadOffset, certEnd))
        else
          Certificate(Encode(CleanPayload(fragment[certStart + PayloadOffset..certEnd])))
  }

  /** Both literal tags occur somewhere in the fragment. */
  ghost predicate HasBothTags(fragment: string) {
    (exists i :: OccursAt(fragment, OpenTag, i)) && (exists j :: OccursAt(fragment, CloseTag, j))
  }

  /** A close tag cannot start inside an open tag, so it starts before the
      payload offset exactly when it starts before the open tag. */
  lemma CloseTagPosition(s: string, o: int, c: int)
    requires OccursAt(s, OpenTag, o) && OccursAt(s, CloseTag, c)
    ensures c < o + PayloadOffset <==> c < o
    ensures o <= c ==> o + |OpenTag| <= c
  {
    if c == o {
      CharOfOccurrence(s, CloseTag, c, 1);
      CharOfOccurrence(s, OpenTag, o, 1);
      assert false;
    } else if o < c < o + |OpenTag| {
      CharOfOccurrence(s, CloseTag, c, 0);
      CharOfOccurrence(s, OpenTag, o, c - o);
      assert false;
    }
  }

  /** A fragment yields something exactly when it holds both tags, and it
      panics exactly when its first close tag comes before its first open
      tag. */
  lemma FragmentOutcomes(fragment: string)
    ensures FromFragment(fragment) != NoCertificate <==> HasBothTags(fragment)
    ensures FromFragment(fragment).FragmentPanic? <==>
      (HasBothTags(fragment) && Find(fragment, CloseTag).value < Find(fragment, OpenTag).value)
  {
    var o := Find(fragment, OpenTag);
    var c := Find(fragment, CloseTag);
    if o.Some? && c.Some? {
      CloseTagPosition(fragment, o.value, c.value);
    }
  }

  /** A certificate block is the PEM wrap of the cleaned slice; the cleaned
      body holds no space or line feed, starts with the open tag's last two
      characters `e>`, and is what `Decode` recovers. */
  lemma {:induction false} CertificateBody(fragment: string)
    requires FromFragment(fragment).Certificate?
    ensures Find(fragment, OpenTag).Some? && Find(fragment, CloseTag).Some?
    ensures var o, c := Find(fragment, OpenTag).value, Find(fragment, CloseTag).value;
      o + |OpenTag| <= c &&
      var body := CleanPayload(fragment[o + PayloadOffset..c]);
      && FromFragment(fragment).pem == Encode(body)
      && NoSpaceOrNewline(body)
      && |body| >= 2 && body[..2] == "e>"
      && Decode(FromFragment(fragment).pem) == Some(body)
  {
    var o, c := Find(fragment, OpenTag).value, Find(fragment, CloseTag).value;
    CloseTagPosition(fragment, o, c);
    var slice := fragment[o + PayloadOffset..c];
    TagTailStartsSlice(fragment, o, c);
    CleanKeepsTagTail(slice);
    DecodeEncode(CleanPayload(slice));
  }

  /** The slice taken at the payload offset starts with the open tag's last
      two characters. */
  lemma TagTailStartsSlice(fragment: string, o: int, c: int)
    requires OccursAt(fragment, OpenTag, o) && o + |OpenTag| <= c <= |fragment|
    ensures var slice := fragment[o + PayloadOffset..c];
      |slice| >= 2 && slice[0] == 'e' && slice[1] == '>'
  {
    assert fragment[o..o + |OpenTag|][19] == OpenTag[19];
    assert fragment[o..o + |OpenTag|][20] == OpenTag[20];
  }

  /** Trimming and removing spaces and line feeds keep a leading `e>`. */
  lemma CleanKeepsTagTail(slice: string)
    requires |slice| >= 2 && slice[0] == 'e' && slice[1] == '>'
    ensures |CleanPayload(slice)| >= 2 && CleanPayload(slice)[..2] == "e>"
  {
    var t := Trim(slice);
    assert LeadingWidth(slice) == 0;
    assert |t| >= 2;
    assert t[..2] == "e>";
    assert t == t[..2] + t[2..];
    RemoveDistributes(t[..2], t[2..]);
    RemoveKeepsClean("e>");
  }

  // ---------------------------------------------------------------------------
  // The second loop: every collected fragment in turn

  datatype HarvestOutcome = Harvested(certs: seq<string>) | HarvestPanic(panic: Panic)

  /** One turn of the fragment loop, given what the fragment yields. */
  function AddOutcome(h: HarvestOutcome, out: FragmentOutcome): HarvestOutcome {
    match h
    case HarvestPanic(p) => h
    case Harvested(certs) =>
      match out
      case NoCertificate => h
      case Certificate(pem) => Harvested(certs + [pem])
      case FragmentPanic(p) => HarvestPanic(p)
  }

  /** The certificates of the fragments, in order, as a fold; a slice panic
      ends it. */
  function Harvest(elements: seq<string>): (h: HarvestOutcome)
    ensures h.Harvested? ==> |h.certs| <= |elements|
    ensures h.HarvestPanic? ==> h.panic.SliceIndexOrder? && h.panic.start > h.panic.end
    decreases |elements|
  {
    if elements == [] then Harvested([])
    else AddOutcome(Harvest(elements[..|elements| - 1]), FromFragment(elements[|elements| - 1]))
  }

  /** The outcome of two runs one after the other. */
  function Then(first: HarvestOutcome, second: HarvestOutcome): HarvestOutcome {
    match first
    case HarvestPanic(p) => first
    case Harvested(x) =>
      match second
      case HarvestPanic(p) => second
      case Harvested(y) => Harvested(x + y)
  }

  lemma ThenAddOutcome(first: HarvestOutcome, second: HarvestOutcome, out: FragmentOutcome)
    ensures Then(first, AddOutcome(second, out)) == AddOutcome(Then(first, second), out)
  {
    if first.Harvested? && second.Harvested? && out.Certificate? {
      assert first.certs + (second.certs + [out.pem]) == (first.certs + second.certs) + [out.pem];
    }
  }

  /** Harvesting a concatenation is harvesting the parts in order, so the
      certificates come out in fragment order. */
  lemma {:induction false} HarvestAppend(a: seq<string>, b: seq<string>)
    ensures Harvest(a + b) == Then(Harvest(a), Harvest(b))
    decreases |b|
  {
    if b == [] {
      assert a + b == a;
      if Harvest(a).Harvested? {
        assert Harvest(a).certs + [] == Harvest(a).certs;
      }
    } else {
      var b' := b[..|b| - 1];
      assert (a + b)[..|a + b| - 1] == a + b';
      assert (a + b)[|a + b| - 1] == b[|b| - 1];
      HarvestAppend(a, b');
      ThenAddOutcome(Harvest(a), Harvest(b'), FromFragment(b[|b| - 1]));
    }
  }

  /** The number of fragments that hold both tags. */
  ghost function TaggedCount(elements: seq<string>): nat
    decreases |elements|
  {
    if elements == [] then 0
    else TaggedCount(elements[..|elements| - 1]) + (if HasBothTags(elements[|elements| - 1]) then 1 else 0)
  }

  /** Without a panic, one certificate per fragment that holds both tags,
      each the block of one of the fragments. */
  lemma {:induction false} HarvestCounts(elements: seq<string>)
    requires Harvest(elements).Harvested?
    ensures |Harvest(elements).certs| == TaggedCount(elements) <= |elements|
    ensures forall t :: 0 <= t < |Harvest(elements).certs| ==>
      exists i :: 0 <= i < |elements| && FromFragment(elements[i]) == Certificate(Harvest(elements).certs[t])
    decreases |elements|
  {
    if elements != [] {
      var init := elements[..|elements| - 1];
      var last := elements[|elements| - 1];
      assert Harvest(init).Harvested?;
      HarvestCounts(init);
      FragmentOutcomes(last);
      var certs := Harvest(elements).certs;
      forall t | 0 <= t < |certs|
        ensures exists i :: 0 <= i < |elements| && FromFragment(elements[i]) == Certificate(certs[t])
      {
        if t < |Harvest(init).certs| {
          var i :| 0 <= i < |init| && FromFragment(init[i]) == Certificate(Harvest(init).certs[t]);
          assert elements[i] == init[i];
        } else {
          assert FromFragment(elements[|elements| - 1]) == Certificate(certs[t]);
        }
      }
    }
  }

  /** The positions of the fragments that yield a certificate, in
      increasing order. */
  ghost function CertificateIndices(elements: seq<string>): seq<nat>
    decreases |elements|
  {
    if elements == [] then []
    else
      var n := |elements| - 1;
      CertificateIndices(elements[..n]) + (if FromFragment(elements[n]).Certificate? then [n] else [])
  }

  /** The positions name fragments that yield a certificate, and each comes
      after the one before. */
  lemma {:induction false} CertificateIndicesIncrease(elements: seq<string>)
    ensures forall t :: 0 <= t < |CertificateIndices(elements)| ==>
      CertificateIndices(elements)[t] < |elements|
      && FromFragment(elements[CertificateIndices(elements)[t]]).Certificate?
    ensures forall s, t :: 0 <= s < t < |CertificateIndices(elements)| ==>
      CertificateIndices(elements)[s] < CertificateIndices(elements)[t]
    decreases |elements|
  {
    if elements != [] {
      var n := |elements| - 1;
      var init := elements[..n];
      CertificateIndicesIncrease(init);
      var before := CertificateIndices(init);
      assert forall i :: 0 <= i < n ==> init[i] == elements[i];
      if FromFragment(elements[n]).Certificate? {
        assert CertificateIndices(elements) == before + [n];
      } else {
        assert CertificateIndices(elements) == before;
      }
    }
  }

  /** Certificate `t` of `certs` is the block of fragment `idx[t]`. */
  ghost predicate BlocksAt(elements: seq<string>, idx: seq<nat>, certs: seq<string>) {
    |idx| == |certs|
    && forall t :: 0 <= t < |idx| ==>
         idx[t] < |elements| && FromFragment(elements[idx[t]]) == Certificate(certs[t])
  }

  lemma BlocksAtWiden(elements: seq<string>, idx: seq<nat>, certs: seq<string>)
    requires elements != []
    requires BlocksAt(elements[..|elements| - 1], idx, certs)
    ensures BlocksAt(elements, idx, certs)
  {
    var init := elements[..|elements| - 1];
    forall t | 0 <= t < |idx|
      ensures idx[t] < |elements| && FromFragment(elements[idx[t]]) == Certificate(certs[t])
    {
      assert elements[idx[t]] == init[idx[t]];
    }
  }

  lemma BlocksAtAppend(elements: seq<string>, idx: seq<nat>, certs: seq<string>, n: nat, pem: string)
    requires BlocksAt(elements, idx, certs)
    requires n < |elements| && FromFragment(elements[n]) == Certificate(pem)
    ensures BlocksAt(elements, idx + [n], certs + [pem])
  {
    var idx', certs' := idx + [n], certs + [pem];
    forall t | 0 <= t < |idx'|
      ensures idx'[t] < |elements| && FromFragment(elements[idx'[t]]) == Certificate(certs'[t])
    {
      if t < |idx| {
        assert idx'[t] == idx[t] && certs'[t] == certs[t];
      }
    }
  }

  /** Without a panic, certificate `t` is the block of the fragment at
      position `t` of `CertificateIndices`: the output follows fragment
      order. */
  lemma {:induction false} HarvestInFragmentOrder(elements: seq<string>)
    requires Harvest(elements).Harvested?
    ensures |CertificateIndices(elements)| == |Harvest(elements).certs|
    ensures forall t :: 0 <= t < |Harvest(elements).certs| ==>
      CertificateIndices(elements)[t] < |elements|
      && FromFragment(elements[CertificateIndices(elements)[t]]) == Certificate(Harvest(elements).certs[t])
  {
    HarvestBlocksAt(elements);
  }

  lemma {:induction false} HarvestBlocksAt(elements: seq<string>)
    requires Harvest(elements).Harvested?
    ensures BlocksAt(elements, CertificateIndices(elements), Harvest(elements).certs)
    decreases |elements|
  {
    if elements != [] {
      var n := |elements| - 1;
      var init := elements[..n];
      assert Harvest(init).Harvested?;
      HarvestBlocksAt(init);
      BlocksAtWiden(elements, CertificateIndices(init), Harvest(init).certs);
      var out := FromFragment(elements[n]);
      if out.Certificate? {
        BlocksAtAppend(elements, CertificateIndices(init), Harvest(init).certs, n, out.pem);
      }
    }
  }

  lemma {:induction false} HarvestPanicSticks(elements: seq<string>, j: int)
    requires 0 <= j <= |elements|
    requires Harvest(elements[..j]).HarvestPanic?
    ensures Harvest(elements) == Harvest(elements[..j])
    decreases |elements| - j
  {
    if j < |elements| {
      assert elements[..j + 1][..j] == elements[..j];
      assert Harvest(elements[..j + 1]) == AddOutcome(Harvest(elements[..j]), FromFragment(elements[j]));
      HarvestPanicSticks(elements, j + 1);
    } else {
      assert elements[..j] == elements;
    }
  }

  // ---------------------------------------------------------------------------
  // extract_certificates

  datatype ExtractionResult =
    | Extracted(certs: seq<string>)
    | Rejected(error: CaExtractorError)
    | Panicked(panic: Panic)

  /** What `extract_certificates` returns for a reader's items. A successful
      result is never empty. */
  function Extract(xml: seq<ReaderItem>): (r: ExtractionResult)
    ensures r.Extracted? ==> |r.certs| >= 1
    ensures r.Rejected? ==>
      r.error.XmlError? || r.error == CertificateExtractionError(NoCertificatesMessage)
  {
    match Scan(xml)
    case Failure(d) => Rejected(XmlError(d))
    case Success(st) =>
      match Harvest(st.elements)
      case HarvestPanic(p) => Panicked(p)
      case Harvested(certs) =>
        if certs == [] then Rejected(CertificateExtractionError(NoCertificatesMessage))
        else Extracted(certs)
  }

  /** The `for element in elements` loop of `extract_certificates`. */
  method HarvestCertificates(elements: seq<string>) returns (h: HarvestOutcome)
    ensures h == Harvest(elements)
  {
    var certificates: seq<string> := [];
    var j := 0;
    while j < |elements|
      invariant 0 <= j <= |elements|
      invariant Harvest(elements[..j]) == Harvested(certificates)
    {
      assert elements[..j + 1][..j] == elements[..j];
      var out := FromFragment(elements[j]);
      assert Harvest(elements[..j + 1]) == AddOutcome(Harvested(certificates), out);
      match out {
        case FragmentPanic(p) =>
          HarvestPanicSticks(elements, j + 1);
          return HarvestPanic(p);
        case Certificate(wrapped) =>
          certificates := certificates + [wrapped];
        case NoCertificate =>
      }
      j := j + 1;
    }
    assert elements[..j] == elements;
    return Harvested(certificates);
  }

  /** `extract_certificates`: the event loop, then the fragment loop. The
      extractor's own fields play no part in it. */
  method ExtractCertificates(extractor: CertificateExtractor, xml: seq<ReaderItem>)
    returns (r: ExtractionResult)
    ensures r == Extract(xml)
  {
    var walk := WalkEvents(xml);
    if walk.Failure? {
      return Rejected(XmlError(walk.error));
    }
    var harvest := HarvestCertificates(walk.value.elements);
    match harvest {
      case HarvestPanic(p) => return Panicked(p);
      case Harvested(certificates) =>
        if certificates == [] {
          return Rejected(CertificateExtractionError(NoCertificatesMessage));
        }
        return Extracted(certificates);
    }
  }

  // ---------------------------------------------------------------------------
  // Properties of extract_certificates

  /** A reader error aborts the call with `XmlError`: no certificate is
      returned. */
  lemma ReaderErrorAbortsExtraction(xml: seq<ReaderItem>, m: int)
    requires 0 <= m < |xml| && xml[m].ReadError? && !HasReadError(xml[..m])
    ensures Extract(xml) == Rejected(XmlError(xml[m].detail))
  {
    ReadErrorAborts(xml, m);
  }

  /** The certificates come from the fragments the walk collects under
      `TSPService`, one per fragment that holds both tags, in order. */
  lemma ExtractedFromServiceText(xml: seq<ReaderItem>)
    requires Extract(xml).Extracted?
    ensures Scan(xml).Success?
    ensures var fragments := Gather(xml, |xml|);
      && Harvest(fragments) == Harvested(Extract(xml).certs)
      && |Extract(xml).certs| == TaggedCount(fragments) <= |fragments|
      && forall t :: 0 <= t < |Extract(xml).certs| ==>
           exists i :: 0 <= i < |fragments| && FromFragment(fragments[i]) == Certificate(Extract(xml).certs[t])
  {
    ScanCollectsServiceText(xml);
    HarvestCounts(Scan(xml).value.elements);
  }

  /** When no collected fragment holds both tags, the call fails with the
      fixed extraction error rather than returning an empty list. */
  lemma NoTaggedFragmentIsAnError(xml: seq<ReaderItem>)
    requires Scan(xml).Success?
    requires forall k :: 0 <= k < |Scan(xml).value.elements| ==> !HasBothTags(Scan(xml).value.elements[k])
    ensures Extract(xml) == Rejected(CertificateExtractionError(NoCertificatesMessage))
  {
    var elements := Scan(xml).value.elements;
    NoneTaggedHarvestsNothing(elements);
  }

  lemma {:induction false} NoneTaggedHarvestsNothing(elements: seq<string>)
    requires forall k :: 0 <= k < |elements| ==> !HasBothTags(elements[k])
    ensures Harvest(elements) == Harvested([])
    decreases |elements|
  {
    if elements != [] {
      NoneTaggedHarvestsNothing(elements[..|elements| - 1]);
      FragmentOutcomes(elements[|elements| - 1]);
    }
  }
}
