/** The service selector of the command line: the two kinds of qualified
    certificate a Trusted List service can be looked up for. */
module Cli {

  datatype ServiceType =
    | QWAC    // qualified certificate for website authentication
    | QSealC  // qualified certificate for electronic seal

  /** `impl From<ServiceType> for String`: the variant's label. */
  function Label(service: ServiceType): (name: string)
    ensures name == "QWAC" <==> service == QWAC
    ensures name == "QSealC" <==> service == QSealC
  {
    match service
    case QWAC => "QWAC"
    case QSealC => "QSealC"
  }

  /** Distinct variants have distinct labels. */
  lemma LabelInjective(a: ServiceType, b: ServiceType)
    ensures Label(a) == Label(b) ==> a == b
  {
  }
}
