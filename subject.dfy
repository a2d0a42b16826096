/** What the trust-bundle builder reads from a certificate's names
    (src/utils.js:9-11, 23): the common name in the subject and whether the issuer is
    the Brazilian national root. */
module Subject {
  import opened Wrappers
  import opened JsString

  /** The CA certificates handed to `createCerts`: issuer and subject as newline
      separated `attr=value` lines, and `pem`, what `cert.toString()` gives. */
  datatype Cert = Cert(issuer: string, subject: string, pem: string)

  const BrcacRoot: string := "Autoridade Certificadora Raiz Brasileira v10"
  const CnPrefix: string := "CN="

  /** `isBrcacCA`: the issuer mentions the national root CA anywhere. */
  function IsBrcacCA(cert: Cert): (r: bool)
    ensures r <==> exists i :: OccursAt(cert.issuer, BrcacRoot, i)
  {
    Includes(cert.issuer, BrcacRoot)
  }

  /** `lines.filter(e => e.startsWith("CN="))`: the lines that start with `CN=`, in
      their original order. */
  function CnLines(lines: seq<string>): (r: seq<string>)
    ensures forall k :: 0 <= k < |r| ==> StartsWith(r[k], CnPrefix)
    ensures r == [] <==> forall k :: 0 <= k < |lines| ==> !StartsWith(lines[k], CnPrefix)
    ensures r != [] ==>
      exists k :: 0 <= k < |lines| && lines[k] == r[0] && (forall j :: 0 <= j < k ==> !StartsWith(lines[j], CnPrefix))
    decreases |lines|
  {
    if lines == [] then []
    else if StartsWith(lines[0], CnPrefix) then [lines[0]] + CnLines(lines[1..])
    else
      var rest := CnLines(lines[1..]);
      assert forall k :: 1 <= k < |lines| ==> lines[k] == lines[1..][k - 1];
      if rest != [] then
        var k :| 0 <= k < |lines[1..]| && lines[1..][k] == rest[0] &&
          forall j :: 0 <= j < k ==> !StartsWith(lines[1..][j], CnPrefix);
        assert lines[k + 1] == rest[0];
        rest
      else
        rest
  }

  /** `subject.split('\n').filter(...)[0].substring(3)`. `None` stands for the
      `TypeError` thrown when no line starts with `CN=`: `[0]` is then `undefined`. */
  function ExtractCN(subject: string): (cn: Option<string>)
    ensures var lines := Split(subject, '\n');
      && (cn.None? <==> forall k :: 0 <= k < |lines| ==> !StartsWith(lines[k], CnPrefix))
      && (cn.Some? ==>
            exists k :: 0 <= k < |lines| && lines[k] == CnPrefix + cn.value
              && (forall j :: 0 <= j < k ==> !StartsWith(lines[j], CnPrefix)))
  {
    var lines := Split(subject, '\n');
    var found := CnLines(lines);
    if found == [] then None
    else
      assert !forall k :: 0 <= k < |lines| ==> !StartsWith(lines[k], CnPrefix) by {
        assert StartsWith(found[0], CnPrefix);
        var k :| 0 <= k < |lines| && lines[k] == found[0];
        assert StartsWith(lines[k], CnPrefix);
      }
      assert found[0] == CnPrefix + found[0][3..];
      assert lines == Split(subject, '\n');
      Some(found[0][3..])
  }

  /** The first example of the common-name extraction: a subject whose first line
      is the common name. */
  lemma ExtractCNExample()
    ensures ExtractCN("CN=Example CA\nO=Org") == Some("Example CA")
  {
    var lines := ["CN=Example CA", "O=Org"];
    assert Join(lines, "\n") == "CN=Example CA\nO=Org";
    assert '\n' !in lines[0] && '\n' !in lines[1];
    SplitJoin(lines, '\n');
    assert StartsWith(lines[0], CnPrefix);
    assert CnLines(lines)[0] == lines[0];
  }
}
