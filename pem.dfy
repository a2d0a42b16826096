/** The PEM framing of a downloaded CRL (section 2 of RFC 7468): base64 text cut into
    lines of at most 64 characters between `-----BEGIN X509 CRL-----` and
    `-----END X509 CRL-----`, as built in src/utils.js:26. */
module Pem {
  import opened Wrappers
  import opened JsString
  import Base64

  const Header: string := "-----BEGIN X509 CRL-----\n"
  const Footer: string := "\n-----END X509 CRL-----\n"
  const LineLength: nat := 64

  /** The characters a JavaScript regular expression's `.` does not match. */
  predicate IsLineTerminator(c: char)
  {
    c == '\n' || c == '\r' || c == '\U{2028}' || c == '\U{2029}'
  }

  predicate NoLineTerminator(s: string)
  {
    forall i :: 0 <= i < |s| ==> !IsLineTerminator(s[i])
  }

  /** `s.match(/.{1,64}/g)` on text without line terminators, with the `null` that
      `match` gives when nothing matches written as the empty sequence: greedy pieces
      of 64 characters, the last one possibly shorter, which put back together give
      `s`. */
  function Chunks(s: string): (lines: seq<string>)
    requires NoLineTerminator(s)
    ensures lines == [] <==> s == []
    ensures forall k :: 0 <= k < |lines| ==> 1 <= |lines[k]| <= LineLength
    ensures forall k :: 0 <= k < |lines| - 1 ==> |lines[k]| == LineLength
    ensures forall k :: 0 <= k < |lines| ==> NoLineTerminator(lines[k])
    ensures Join(lines, "") == s
    decreases |s|
  {
    if |s| == 0 then []
    else if |s| <= LineLength then [s]
    else
      var rest := Chunks(s[LineLength..]);
      assert s == s[..LineLength] + s[LineLength..];
      [s[..LineLength]] + rest
  }

  /** Base64 text never holds a line terminator. */
  lemma Base64HasNoLineTerminator(s: string)
    requires forall i :: 0 <= i < |s| ==> Base64.IsBase64Char(s[i])
    ensures NoLineTerminator(s)
  {
  }

  /** The PEM text of a CRL whose body is the base64 text `b64`. `None` stands for
      the `TypeError` thrown when the body is empty: `match` then gives `null`,
      which has no `join`. */
  function WrapCrl(b64: string): (pem: Option<string>)
    requires NoLineTerminator(b64)
    ensures pem.None? <==> b64 == []
    ensures pem.Some? ==> StartsWith(pem.value, Header) && EndsWith(pem.value, Footer)
  {
    var lines := Chunks(b64);
    if lines == [] then None
    else
      var p := Header + Join(lines, "\n") + Footer;
      assert p[..|Header|] == Header;
      assert p[|p| - |Footer|..] == Footer;
      Some(p)
  }

  /** A reader's view of PEM text: the lines between the header and the footer, or
      `None` when the text is not framed by them. */
  function BodyLines(pem: string): Option<seq<string>>
  {
    if |pem| >= |Header| + |Footer| && StartsWith(pem, Header) && EndsWith(pem, Footer) then
      Some(Split(pem[|Header|..|pem| - |Footer|], '\n'))
    else
      None
  }

  /** Reading back the PEM text of a CRL gives exactly the pieces `Chunks` cuts its
      base64 body into, one per line. */
  lemma {:induction false} WrapCrlRoundTrip(b64: string)
    requires NoLineTerminator(b64)
    requires b64 != []
    ensures WrapCrl(b64).Some?
    ensures BodyLines(WrapCrl(b64).value) == Some(Chunks(b64))
  {
    var lines := Chunks(b64);
    var body := Join(lines, "\n");
    var p := Header + body + Footer;
    assert WrapCrl(b64) == Some(p);
    assert p[|Header|..|p| - |Footer|] == body;
    forall k | 0 <= k < |lines| ensures '\n' !in lines[k] {
      assert NoLineTerminator(lines[k]);
    }
    SplitJoin(lines, '\n');
  }
}
