/** The PEM wrapping of a cleaned base64 body, as `extract_certificates`
    writes it: the textual encoding of section 2 of RFC 7468, with lines of
    64 characters under a `BEGIN CERTIFICATE` / `END CERTIFICATE` frame. */
module Pem {
  import opened Wrappers
  import opened Text

  const LineWidth: nat := 64
  const Header := "-----BEGIN CERTIFICATE-----\n"
  const Footer := "\n-----END CERTIFICATE-----\n"

  /** The lines glued back together, with nothing between them. */
  function Concat(lines: seq<string>): string {
    if lines == [] then [] else lines[0] + Concat(lines[1..])
  }

  /** `lines.join(sep)`. */
  function Join(lines: seq<string>, sep: string): (r: string)
    ensures lines == [] ==> r == []
    ensures lines != [] ==> |r| == |Concat(lines)| + (|lines| - 1) * |sep|
  {
    if |lines| == 0 then []
    else if |lines| == 1 then lines[0]
    else lines[0] + sep + Join(lines[1..], sep)
  }

  /** `s.as_bytes().chunks(64)`, one chunk per line. */
  function Chunks(s: string): (lines: seq<string>)
    ensures forall k :: 0 <= k < |lines| ==> 0 < |lines[k]| <= LineWidth
    ensures forall k :: 0 <= k < |lines| - 1 ==> |lines[k]| == LineWidth
    ensures forall k, i :: 0 <= k < |lines| && 0 <= i < |lines[k]| ==> lines[k][i] in s
    ensures Concat(lines) == s
    decreases |s|
  {
    if |s| <= LineWidth then
      (if s == [] then [] else [s])
    else
      var rest := Chunks(s[LineWidth..]);
      var lines := [s[..LineWidth]] + rest;
      assert lines[1..] == rest;
      assert s == s[..LineWidth] + s[LineWidth..];
      assert forall k, i :: 1 <= k < |lines| && 0 <= i < |lines[k]| ==> lines[k][i] in s[LineWidth..];
      lines
  }

  /** The PEM block of a certificate body. */
  function Encode(body: string): (pem: string)
    ensures |pem| >= |Header| + |Footer|
    ensures pem[..|Header|] == Header
    ensures pem[|pem| - |Footer|..] == Footer
  {
    Header + Join(Chunks(body), "\n") + Footer
  }

  /** The text between the frame lines, if `pem` has them. */
  function Between(pem: string): Option<string> {
    if |pem| >= |Header| + |Footer| && pem[..|Header|] == Header
       && pem[|pem| - |Footer|..] == Footer
    then Some(pem[|Header|..|pem| - |Footer|])
    else None
  }

  /** The partner of `Encode`: drop the frame and the inserted line breaks. */
  function Decode(pem: string): Option<string> {
    match Between(pem)
    case None => None
    case Some(lines) => Some(RemoveSpacesAndNewlines(lines))
  }

  lemma {:induction false} RemoveFromJoin(lines: seq<string>)
    requires forall k :: 0 <= k < |lines| ==> NoSpaceOrNewline(lines[k])
    ensures RemoveSpacesAndNewlines(Join(lines, "\n")) == Concat(lines)
    decreases |lines|
  {
    if |lines| == 1 {
      RemoveKeepsClean(lines[0]);
      assert Concat(lines) == lines[0] + Concat([]);
    } else if |lines| > 1 {
      var rest := lines[1..];
      RemoveFromJoin(rest);
      RemoveDistributes(lines[0] + "\n", Join(rest, "\n"));
      RemoveDistributes(lines[0], "\n");
      RemoveKeepsClean(lines[0]);
    }
  }

  /** Every line of the wrapped body of a clean text is itself clean. */
  lemma ChunksOfCleanAreClean(body: string)
    requires NoSpaceOrNewline(body)
    ensures forall k :: 0 <= k < |Chunks(body)| ==> NoSpaceOrNewline(Chunks(body)[k])
  {
    var lines := Chunks(body);
    forall k, i | 0 <= k < |lines| && 0 <= i < |lines[k]|
      ensures lines[k][i] != ' ' && lines[k][i] != '\n'
    {
      assert lines[k][i] in body;
    }
  }

  /** Removing the line breaks `Encode` inserts gives back the body. */
  lemma DecodeEncode(body: string)
    requires NoSpaceOrNewline(body)
    ensures Between(Encode(body)) == Some(Join(Chunks(body), "\n"))
    ensures Decode(Encode(body)) == Some(body)
  {
    var pem := Encode(body);
    var middle := Join(Chunks(body), "\n");
    assert pem == Header + middle + Footer;
    assert pem[|Header|..|pem| - |Footer|] == middle;
    ChunksOfCleanAreClean(body);
    RemoveFromJoin(Chunks(body));
  }

  /** Cleaning an already wrapped body and wrapping it again gives the same
      lines: re-wrapping is idempotent. */
  lemma RewrapIsIdempotent(body: string)
    requires NoSpaceOrNewline(body)
    ensures Chunks(RemoveSpacesAndNewlines(Join(Chunks(body), "\n"))) == Chunks(body)
    ensures Encode(RemoveSpacesAndNewlines(Join(Chunks(body), "\n"))) == Encode(body)
  {
    ChunksOfCleanAreClean(body);
    RemoveFromJoin(Chunks(body));
  }
}
