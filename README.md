# caExtractor-rs in Dafny

A model and its proofs for the core of `ca_extractor`. This tool downloads a
country's eIDAS Trusted List (an XML document) and pulls out the X.509
certificates embedded in it. The service entries it reads are the `TSPService`
elements. Each certificate is written out as a PEM block.

The model covers four source files:

- `CertificateExtractor::new` checks the country code and picks the service URI.
- `extract_certificates` has two loops:
  - an event walk that collects the character content found under `<TSPService>`;
  - a loop over those fragments that slices out the text between
    `<tsl:X509Certificate>` and `</tsl:X509Certificate>`, cleans it and wraps
    it as PEM.
- The stand-alone `main` of `main.rs`:
  - reads its arguments by position;
  - matches the service token;
  - repeats the event walk;
  - writes one file per certificate, named after the element's index.
- The `ServiceType` label (`cli.rs`) and the display formats of
  `CaExtractorError` (`error.rs`).

Modules:

| file | module | models |
|---|---|---|
| `wrappers.dfy` | `Wrappers` | `Option` and `Result` |
| `text.dfy` | `Text` | `str::find`, `str::trim`, `replace([' ', '\n'], "")`, `String::len` in UTF-8 bytes, decimal rendering, the panics |
| `pem.dfy` | `Pem` | the 64-column PEM wrap and its inverse |
| `cli.dfy` | `Cli` | `ServiceType` and its `String` conversion |
| `errors.dfy` | `Errors` | `CaExtractorError` and its messages |
| `event_scan.dfy` | `EventScan` | the `for event in parser` walk over an abstract event sequence |
| `extractor.dfy` | `Extractor` | `NamespaceContext`, `CertificateExtractor::new`, the download URL, `extract_certificates` |
| `command_line.dfy` | `CommandLine` | `main` |

The loops are methods with `while` loops, each proved equal to a specification
function that is a left fold over a prefix:

- `EventScan.WalkEvents` is the `for event in parser` walk, proved equal to `EventScan.Scan`.
- `Extractor.HarvestCertificates` is the fragment loop of `extract_certificates`, proved equal to `Extractor.Harvest`.
- `CommandLine.WriteCertificates` is the `enumerate` loop of `main`, proved equal to `CommandLine.PlanWrites`.

`Extractor.FromFragment` is the loop body that finds both tags, slices, cleans
and wraps. `main.rs` repeats the walk (lines 56-73) and this body (lines
81-93) character for character. The model defines each once, and
`Extractor.ExtractCertificates` and `CommandLine.RunMain` both use them. The
lemmas about the specification functions state what the source promises.

Quirks of the code that the model keeps:

- The payload slice starts at the open tag plus 19, and the tag is 21
  characters long. Every certificate body therefore begins with the tag's last
  two characters, `e>` (`Extractor.CertificateBody`).
- A close tag that comes before the open tag makes `&element[start + 19..end]`
  panic. The model returns this as an explicit result, `SliceIndexOrder`, and
  never as an error value. A close tag lying between the open tag and open
  tag + 19 cannot occur (`Extractor.CloseTagPosition`).
- The country check counts UTF-8 bytes, not characters
  (`Extractor.CountryLengthIsInBytes`).
- `main` ignores the service URI it matches. It numbers files by element
  index, so elements without a certificate leave gaps.
- `main` panics on `--target_folder` given without a value.
- `main` never warns when no certificate is found.
- When nothing is found, `extract_certificates` returns
  `CertificateExtractionError("No certificates found in the XML content")`.
  The `NoCertificatesFound` variant is never built. The code does not check
  the response format and has no fallback path. The model follows the code.

## Model

| member | source | states |
|---|---|---|
| Text.Find | ca_extractor/src/extractor.rs:89-90 | `str::find`: `Some` exactly when the pattern occurs, at an occurrence, and no occurrence lies earlier |
| Text.Trim | ca_extractor/src/extractor.rs:91 | `trim` returns a contiguous slice; everything dropped before and after it is White_Space, and its first and last characters are not |
| Text.RemoveSpacesAndNewlines | ca_extractor/src/extractor.rs:91 | `replace([' ', '\n'], "")` leaves no space or line feed, keeps the count of every other character, and never lengthens |
| Text.RemoveDistributes | ca_extractor/src/extractor.rs:91 | the removal distributes over concatenation |
| Text.RemoveKeepsClean | ca_extractor/src/extractor.rs:91 | the removal leaves a string without spaces or line feeds unchanged |
| Text.Utf8Length | ca_extractor/src/extractor.rs:35 | `String::len` is between the character count and four times it, and equals the character count exactly for ASCII |
| Text.Decimal | ca_extractor/src/main.rs:95 | the rendering of the index is non-empty digits without a leading zero |
| Text.DecimalRoundTrip | ca_extractor/src/main.rs:95 | parsing the rendered index gives the index back |
| Pem.Chunks | ca_extractor/src/extractor.rs:95-100 | `chunks(64)`: every line is non-empty and at most 64 long, all but the last exactly 64, and the lines concatenate back to the input |
| Pem.Encode | ca_extractor/src/extractor.rs:93-101 | the PEM text starts with the BEGIN header line and ends with the END footer line |
| Pem.RemoveFromJoin | ca_extractor/src/extractor.rs:100 | joining clean lines with `\n` and removing spaces and line feeds gives their concatenation |
| Pem.DecodeEncode | ca_extractor/src/extractor.rs:93-101 | for a clean body, the text between header and footer is the joined chunks, and cleaning it gives the body back |
| Pem.RewrapIsIdempotent | ca_extractor/src/extractor.rs:91-101 | cleaning and re-wrapping a wrapped body gives the same lines and the same PEM text |
| Pem.Join | ca_extractor/src/extractor.rs:100 | `join("\n")` of no lines is empty; otherwise its length is the lines' total plus one separator between each pair |
| Cli.LabelInjective | ca_extractor/src/cli.rs:37-40 | distinct service types have distinct labels |
| Cli.Label | ca_extractor/src/cli.rs:35-41 | the label is `QWAC` exactly for `QWAC` and `QSealC` exactly for `QSealC` |
| Errors.Display | ca_extractor/src/error.rs:5-29 | each one-string variant displays as its fixed prefix followed by its payload; `NoCertificatesFound` uses its two-field format |
| Errors.MessageNamesVariant | ca_extractor/src/error.rs:5-29 | the variant can be read back from the first characters of its message |
| Errors.DisplayIsInjective | ca_extractor/src/error.rs:5-29 | equal messages come from the same variant, and from the same error unless both are `NoCertificatesFound` |
| Errors.PayloadIsRecoverable | ca_extractor/src/error.rs:6-28 | the payload of a one-string variant is the message after its prefix |
| Errors.NoCertificatesFoundIsAmbiguous | ca_extractor/src/error.rs:24-25 | two different `NoCertificatesFound` errors can display the same message |
| EventScan.Step | ca_extractor/src/extractor.rs:72-83 | one event extends the collected list by at most one text, and by exactly the event's text precisely when it is character content under `TSPService`; character content and other events keep the current element |
| EventScan.Scan | ca_extractor/src/extractor.rs:71-84 | the walk collects at most one text per event, and a failure carries the detail of a reader error in the input |
| EventScan.WalkEvents | ca_extractor/src/extractor.rs:67-84 | the event loop computes exactly the fold `Scan` |
| EventScan.ReadErrorAborts | ca_extractor/src/extractor.rs:71-72 | the first reader error ends the walk with that error |
| EventScan.ScanSucceedsWithoutError | ca_extractor/src/extractor.rs:71-84 | without a reader error the walk succeeds |
| EventScan.ScanCollectsServiceText | ca_extractor/src/extractor.rs:71-84 | the walk collects exactly the character contents whose closest preceding start or end tag is `<TSPService>`, in document order |
| EventScan.CurrentTracksService | ca_extractor/src/extractor.rs:73-81 | the current element is `TSPService` exactly when the closest preceding start or end tag is `<TSPService>` |
| EventScan.EndTagStopsCollection | ca_extractor/src/extractor.rs:79-81 | after an end tag nothing is collected until the next start tag |
| EventScan.OtherEventsKeepCurrent | ca_extractor/src/extractor.rs:76-82 | character content and other events leave the current element unchanged |
| Extractor.NamespaceUri | ca_extractor/src/extractor.rs:13-22 | the namespace context knows exactly the prefix `tsl`, and maps it to `http://uri.etsi.org/02231/v2#` |
| Extractor.ServiceUri | ca_extractor/src/extractor.rs:41-44 | `QWAC` selects the website-authentication URI and `QSealC` the e-seal URI |
| Extractor.New | ca_extractor/src/extractor.rs:33-51 | construction fails exactly when the country is not two bytes long, with `InvalidCountryCode` and its message; otherwise the country, the service URI and the label are stored |
| Extractor.AsciiCountryCodes | ca_extractor/src/extractor.rs:35-39 | an ASCII country code is accepted exactly when it has two characters |
| Extractor.CountryLengthIsInBytes | ca_extractor/src/extractor.rs:35 | one two-byte character passes the check, and two of them fail it |
| Extractor.DownloadUrl | ca_extractor/src/extractor.rs:53-57 | the URL is the download endpoint followed by the country |
| Extractor.DownloadUrlInjective | ca_extractor/src/extractor.rs:53-57 | different countries get different URLs |
| Extractor.CleanPayload | ca_extractor/src/extractor.rs:91 | the cleaned slice holds no space or line feed and is no longer than the slice |
| Extractor.FromFragment | ca_extractor/src/extractor.rs:89-101 | one fragment's outcome: a panic is always a slice whose start lies after its end, and a certificate is always a framed PEM block (with `FragmentOutcomes` and `CertificateBody` for when each happens and what the block holds) |
| Extractor.CloseTagPosition | ca_extractor/src/extractor.rs:89-91 | a close tag lies before open + 19 exactly when it lies before the open tag; otherwise it lies after the end of the open tag |
| Extractor.FragmentOutcomes | ca_extractor/src/extractor.rs:89-91 | a fragment yields something exactly when it holds both tags, and panics exactly when the first close tag comes before the first open tag |
| Extractor.CertificateBody | ca_extractor/src/extractor.rs:89-101 | a yielded certificate is the PEM wrap of a body without spaces or line feeds that starts with `e>`, and decoding the PEM gives that body back |
| Extractor.Harvest | ca_extractor/src/extractor.rs:86-106 | the fragment loop yields at most one certificate per fragment, and its only panic is a slice whose start lies after its end |
| Extractor.CertificateIndicesIncrease | ca_extractor/src/extractor.rs:88-106 | the positions of the fragments that yield a certificate are increasing and each names such a fragment |
| Extractor.HarvestInFragmentOrder | ca_extractor/src/extractor.rs:88-106 | without a panic, certificate `t` is exactly the block of the `t`-th fragment that yields one: the output is in fragment order |
| Extractor.HarvestAppend | ca_extractor/src/extractor.rs:88-106 | the fragment loop over two lists in a row is the loop over the first followed by the loop over the second |
| Extractor.HarvestCounts | ca_extractor/src/extractor.rs:88-106 | one certificate per fragment with both tags, no more than the fragments, each built from one fragment |
| Extractor.HarvestPanicSticks | ca_extractor/src/extractor.rs:88-106 | once a fragment panics, later fragments change nothing |
| Extractor.Extract | ca_extractor/src/extractor.rs:66-114 | a success holds at least one certificate; an error is the reader error or the no-certificates error |
| Extractor.HarvestCertificates | ca_extractor/src/extractor.rs:86-106 | the fragment loop computes exactly `Harvest` |
| Extractor.ExtractCertificates | ca_extractor/src/extractor.rs:66-114 | the walk, the fragment loop and the final emptiness check compute exactly `Extract` |
| Extractor.ReaderErrorAbortsExtraction | ca_extractor/src/extractor.rs:71-72 | the first reader error becomes `XmlError` with its detail |
| Extractor.ExtractedFromServiceText | ca_extractor/src/extractor.rs:66-114 | the certificates are those of the service fragments, one per fragment with both tags, each built from one fragment |
| Extractor.NoTaggedFragmentIsAnError | ca_extractor/src/extractor.rs:108-111 | when no fragment holds both tags the result is the no-certificates error |
| CommandLine.TargetFolder | ca_extractor/src/main.rs:35-39 | the folder is `args[4]` after the flag in position 3 and `.` otherwise; the flag given last panics on index 4 |
| CommandLine.ServiceUriForToken | ca_extractor/src/main.rs:41-45 | `QWAC` and `QSealC` select their URIs; every other token panics |
| CommandLine.TokenOfLabelAgreesWithNew | ca_extractor/src/main.rs:41-45 | the token match and `CertificateExtractor::new` agree on the URI of each service type |
| CommandLine.FileName | ca_extractor/src/main.rs:95 | the name is the folder, `/`, the country, `_`, decimal digits and `.pem`, in that order |
| CommandLine.FileNameInjective | ca_extractor/src/main.rs:95 | different element indices name different files |
| CommandLine.PlanWrites | ca_extractor/src/main.rs:78-100 | the `enumerate` loop writes at most one file per element, and its only panic is a slice whose start lies after its end |
| CommandLine.MainPlan | ca_extractor/src/main.rs:25-104 | a run shows the usage exactly when it has fewer than three arguments; it requests the country's URL exactly when the folder and token are valid; the folder needs a download, writes need the folder, and a failed run creates and writes nothing |
| CommandLine.WriteCertificates | ca_extractor/src/main.rs:78-100 | the `enumerate` loop computes exactly `PlanWrites` |
| CommandLine.RunMain | ca_extractor/src/main.rs:25-104 | `main` does exactly what `MainPlan` describes |
| CommandLine.WritesAreExtractorCertificates | ca_extractor/src/main.rs:78-100 | the written contents are, in order, the certificates `extract_certificates` builds from the same elements, and both loops stop at the same panic |
| CommandLine.WritesNameTheirElement | ca_extractor/src/main.rs:78-96 | every write is the certificate of one element, to the file named by that element's index |
| CommandLine.WritesInElementOrder | ca_extractor/src/main.rs:78-96 | without a panic, write `t` holds the block of the `t`-th element that yields one, in the file named by that element's index, and those indices increase |
| CommandLine.UntaggedElementLeavesGap | ca_extractor/src/main.rs:81-82 | an element lacking either tag gets no file, so its index is a gap in the numbering |
| CommandLine.FewArgumentsPrintUsage | ca_extractor/src/main.rs:28-31 | with fewer than three arguments only the usage line is printed; nothing is requested or written |
| CommandLine.UnknownTokenPanics | ca_extractor/src/main.rs:44 | an unknown service token panics before any request |
| CommandLine.FolderCreatedOnlyForElements | ca_extractor/src/main.rs:75-76 | the target folder is created exactly when the walk collected an element, and no file is written without it |
| CommandLine.MainWritesWhatExtractorReturns | ca_extractor/src/main.rs:56-103 | a successful walk writes the certificates `extract_certificates` returns, ends with the same panic, or writes nothing and still ends with `Ok(())` |

## Left out

- The HTTP download (`reqwest::blocking::get`, `read_to_string`): `CommandLine.RunMain` takes its outcome as a parameter, covering success, a request failure and a read failure. `fetch_xml_content` is modelled only by its URL.
- XML tokenisation (`xml::reader::EventReader`): the document is the sequence of events the reader would produce, ending at the first reader error. Well-formedness, entities and namespaces are not modelled.
- File system and console: `create_dir_all` and `fs::write` become the planned folder and writes, and are assumed to succeed. Their `IoError` paths are not modelled. The `println!`/`eprintln!` lines are left out, apart from the usage text.
- How `main` finds its process arguments: `env::args()` becomes the `args` parameter.
- `clap` argument parsing (`cli.rs` `Args`, lines 11-33): nothing in the core calls it.
- The foreign error payloads of `IoError`, `RequestError` and `XmlError`: they are modelled as the text their `Display` would produce.
- Text.Find: counts positions in characters while `str::find` returns byte offsets. The outcome is the same, because only the order of the two positions and the slice between them matter. The numbers carried by a `SliceIndexOrder` panic, though, are character positions, not the byte offsets in Rust's panic message.
- Pem.Chunks: splits per character where the source splits UTF-8 bytes. The two agree on ASCII, which is what Base64 payloads are. The `from_utf8(..).unwrap()` panic on a chunk boundary inside a multi-byte character is not modelled.
- In `main.rs`, `response` is not declared `mut` before `read_to_string`. The model treats that line as the `mut` binding that `extractor.rs` has.
- The `NamespaceContext` copy in `main.rs` (lines 10-23) is the same map as the one in `extractor.rs`, and is modelled once as `Extractor.NamespaceUri`. Neither copy is used.
- `tests.rs` holds the repository's unit tests. It is not part of this model.
