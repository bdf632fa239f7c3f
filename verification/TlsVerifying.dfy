/**
 The certificate verifier a handshake consults. It keeps the certificate it was
 shown and the transcript up to it, and the signature is judged over those.
 Whether a chain leads to the trusted certificate for the host, and whether a
 signature is good under a certificate's key, are parameters.
 */
module TlsVerifying {
  import opened Bytes
  import opened TlsKeySchedule
  import opened TlsRecords
  import opened Wrappers

  datatype Judge = Judge(
    certificate: seq<byte> -> bool,
    signature: (seq<byte>, seq<byte>, seq<byte>) -> bool)   // certificate, signed content, signature

  /** What the verifier was shown: the transcript is used up by the signature over it, the certificate stays. */
  datatype Shown = Shown(transcript: Option<seq<byte>>, certificate: Option<seq<byte>>)

  /** 64 spaces, the context string and the transcript hash (RFC 8446, section 4.4.3). */
  function SignedContent(s: Suite, context: string, transcript: seq<byte>): seq<byte> {
    seq(64, _ => 0x20) + Ascii(context) + [0] + s.hash(transcript)
  }

  /** The content as it is put together: the context string ends in a zero. */
  lemma ContentIs(s: Suite, context: string, transcript: seq<byte>)
    ensures seq(64, _ => 32) + Ascii(context + "\0") + s.hash(transcript) == SignedContent(s, context, transcript)
  {
    var longer := context + "\0";
    assert forall i :: 0 <= i < |context| ==> longer[i] == context[i];
    assert Ascii(longer) == Ascii(context) + [0];
    SeqRegroup(seq(64, _ => 0x20), Ascii(context), [0]);
  }

  function TakeCertificate(judge: Judge, shown: Shown, transcript: seq<byte>,
                           certificate: seq<byte>): TlsResult<Shown>
  {
    if !judge.certificate(certificate) then Err(CertificateRejected)
    else Ok(Shown(Some(transcript), Some(certificate)))
  }

  function TakeSignature(judge: Judge, s: Suite, shown: Shown, verify: seq<byte>): TlsResult<Shown> {
    if shown.transcript.None? || shown.certificate.None? then Err(InternalError)
    else
      var content := SignedContent(s, "TLS 1.3, server CertificateVerify", shown.transcript.value);
      if !judge.signature(shown.certificate.value, content, verify) then Err(InvalidSignature)
      else Ok(shown.(transcript := None))
  }

  class CertVerifier {
    const judge: Judge
    const suite: Suite
    var certificateTranscript: Option<seq<byte>>
    var certificate: Option<seq<byte>>

    ghost function State(): Shown
      reads this
    {
      Shown(certificateTranscript, certificate)
    }

    constructor (judge: Judge, suite: Suite)
      ensures this.judge == judge && this.suite == suite && State() == Shown(None, None)
    {
      this.judge := judge;
      this.suite := suite;
      certificateTranscript := None;
      certificate := None;
    }

    method VerifyCertificate(transcript: seq<byte>, cert: seq<byte>) returns (r: TlsResult<()>)
      modifies this
      ensures var t := TakeCertificate(judge, old(State()), transcript, cert);
              if t.Err? then r == Err(t.error) && State() == old(State()) else r.Ok? && State() == t.value
    {
      if !judge.certificate(cert) {
        return Err(CertificateRejected);
      }
      certificate := Some(cert);
      certificateTranscript := Some(transcript);
      return Ok(());
    }

    /** Without a certificate before it there is nothing the signature could cover; the code stops there. */
    method VerifySignature(verify: seq<byte>) returns (r: TlsResult<()>)
      modifies this
      ensures var t := TakeSignature(judge, suite, old(State()), verify);
              if t.Err? then r == Err(t.error) else r.Ok? && State() == t.value
    {
      var handshakeTranscript := certificateTranscript;
      certificateTranscript := None;
      if handshakeTranscript.None? || certificate.None? {
        return Err(InternalError);
      }
      var message := seq(64, _ => 32);
      message := message + Ascii("TLS 1.3, server CertificateVerify\0");
      message := message + suite.hash(handshakeTranscript.value);
      assert "TLS 1.3, server CertificateVerify" + "\0" == "TLS 1.3, server CertificateVerify\0";
      ContentIs(suite, "TLS 1.3, server CertificateVerify", handshakeTranscript.value);
      if !judge.signature(certificate.value, message, verify) {
        return Err(InvalidSignature);
      }
      return Ok(());
    }
  }
}
