/** `CaExtractorError` and the messages its `Display` implementation writes.
    The payloads of the three variants that wrap a foreign error (an I/O
    error, an HTTP error, an XML reader error) are kept as the text that
    error displays as. */
module Errors {

  datatype CaExtractorError =
    | IoError(ioDetail: string)
    | RequestError(requestDetail: string)
    | XmlError(xmlDetail: string)
    | InvalidServiceType(serviceMessage: string)
    | CertificateExtractionError(extractionMessage: string)
    | InvalidCountryCode(countryMessage: string)
    | NoCertificatesFound(country: string, service: string)
    | InvalidCertificateFormat(formatMessage: string)

  /** The message of every variant that carries one string: the payload
      that follows the variant's fixed prefix. */
  function Payload(e: CaExtractorError): string
    requires !e.NoCertificatesFound?
  {
    match e
    case IoError(m) => m
    case RequestError(m) => m
    case XmlError(m) => m
    case InvalidServiceType(m) => m
    case CertificateExtractionError(m) => m
    case InvalidCountryCode(m) => m
    case InvalidCertificateFormat(m) => m
  }

  /** The fixed text that precedes the payload of a one-string variant. */
  function Prefix(e: CaExtractorError): string
    requires !e.NoCertificatesFound?
  {
    match e
    case IoError(_) => "IO error: "
    case RequestError(_) => "HTTP request error: "
    case XmlError(_) => "XML parsing error: "
    case InvalidServiceType(_) => "Invalid service type: "
    case CertificateExtractionError(_) => "Certificate extraction error: "
    case InvalidCountryCode(_) => "Invalid country code: "
    case InvalidCertificateFormat(_) => "Invalid certificate format: "
  }

  /** The `#[error(...)]` text of each variant. */
  function Display(e: CaExtractorError): (message: string)
    ensures !e.NoCertificatesFound? ==> message == Prefix(e) + Payload(e)
    ensures e.NoCertificatesFound? ==>
      message == "No certificates found for country " + e.country + " and service " + e.service
  {
    match e
    case IoError(m) => "IO error: " + m
    case RequestError(m) => "HTTP request error: " + m
    case XmlError(m) => "XML parsing error: " + m
    case InvalidServiceType(m) => "Invalid service type: " + m
    case CertificateExtractionError(m) => "Certificate extraction error: " + m
    case InvalidCountryCode(m) => "Invalid country code: " + m
    case NoCertificatesFound(country, service) =>
      "No certificates found for country " + country + " and service " + service
    case InvalidCertificateFormat(m) => "Invalid certificate format: " + m
  }

  /** The position of a variant in the declaration. */
  function Ordinal(e: CaExtractorError): nat {
    match e
    case IoError(_) => 0
    case RequestError(_) => 1
    case XmlError(_) => 2
    case InvalidServiceType(_) => 3
    case CertificateExtractionError(_) => 4
    case InvalidCountryCode(_) => 5
    case NoCertificatesFound(_, _) => 6
    case InvalidCertificateFormat(_) => 7
  }

  /** Reads the variant back from the first characters of a message: the
      fixed prefixes differ at index 0, 1, 8 or 9. */
  function OrdinalOfMessage(message: string): nat
    requires |message| >= 10
  {
    if message[0] == 'H' then 1
    else if message[0] == 'X' then 2
    else if message[0] == 'C' then 4
    else if message[0] == 'N' then 6
    else if message[1] == 'O' then 0
    else if message[8] == 's' then 3
    else if message[9] == 'o' then 5
    else 7
  }

  lemma MessageNamesVariant(e: CaExtractorError)
    ensures |Display(e)| >= 10 && OrdinalOfMessage(Display(e)) == Ordinal(e)
  {
    var m := Display(e);
    if e.NoCertificatesFound? {
      var p := "No certificates found for country ";
      assert m == p + (e.country + " and service " + e.service);
      assert m[0] == p[0];
    } else {
      var p := Prefix(e);
      assert m == p + Payload(e);
      assert m[0] == p[0] && m[1] == p[1] && m[8] == p[8] && m[9] == p[9];
    }
  }

  /** Two errors with the same message are the same error, except that a
      `NoCertificatesFound` message does not always tell where the country
      ends and the service begins (see `NoCertificatesFoundIsAmbiguous`). */
  lemma {:induction false} DisplayIsInjective(e1: CaExtractorError, e2: CaExtractorError)
    requires Display(e1) == Display(e2)
    ensures Ordinal(e1) == Ordinal(e2)
    ensures e1 == e2 || (e1.NoCertificatesFound? && e2.NoCertificatesFound?)
  {
    MessageNamesVariant(e1);
    MessageNamesVariant(e2);
    if !e1.NoCertificatesFound? && !e2.NoCertificatesFound? {
      var m := Display(e1);
      assert Prefix(e1) == Prefix(e2);
      assert Payload(e1) == m[|Prefix(e1)|..] == Payload(e2);
    }
  }

  /** The message of a one-string variant ends with its payload. */
  lemma PayloadIsRecoverable(e: CaExtractorError)
    requires !e.NoCertificatesFound?
    ensures Display(e)[|Prefix(e)|..] == Payload(e)
  {
  }

  /** Two different `NoCertificatesFound` errors with one message. */
  lemma NoCertificatesFoundIsAmbiguous()
    ensures Display(NoCertificatesFound("A and service B", "C"))
         == Display(NoCertificatesFound("A", "B and service C"))
  {
  }
}
