/**
 * Concrete message shapes for get_email_by_id.py, each pinning down one
 * behaviour of header lookup and body extraction, including its quirks.
 */
module EmailByIdScenarios {
  import opened Wrappers
  import opened EmailById
  import Base64Url
  import Utf8

  /** Gmail's encoding of a body text. */
  function Encoded(s: string): string {
    Base64Url.Encode(Utf8.Encode(s))
  }

  function Leaf(mimeType: string, text: string): Payload {
    Payload(mimeType, [], Body(Some(Encoded(text))), None)
  }

  /** A header is found whatever the letter case of its name. */
  lemma UpperCaseHeaderFound()
    ensures GetHeaderValue([Header("SUBJECT", "Hi")], "subject") == Some("Hi")
  {
    assert NameMatches(Header("SUBJECT", "Hi"), "subject");
  }

  /** A message without headers gets every placeholder. */
  lemma MissingHeadersDefault(id: string, body: Payload)
    requires body.headers == []
    ensures var r := BuildRecord(Message(id, None, body, None));
      r.subject == NoSubject && r.from == UnknownSender && r.to == UnknownRecipient
      && r.date == UnknownDate && r.snippet == ""
  {
  }

  /** An empty first header shadows a later one of the same name. */
  lemma EmptySubjectFallsBack(id: string, body: Payload)
    requires body.headers == [Header("Subject", ""), Header("subject", "Later")]
    ensures BuildRecord(Message(id, None, body, None)).subject == NoSubject
  {
    assert NameMatches(body.headers[0], "Subject");
  }

  /** A single-part message yields its own decoded data. */
  lemma SinglePart(s: string)
    ensures ExtractBody(Leaf("text/plain", s)) == s
  {
    DecodeBodyRoundTrip(s);
  }

  /** The first text/plain child wins even when an HTML child comes first. */
  lemma PlainPreferredOverHtml(html: string, plain: string, outer: Body)
    ensures ExtractBody(Payload("multipart/alternative", [], outer,
                                Some([Leaf("text/html", html), Leaf("text/plain", plain)]))) == plain
  {
    var ps := [Leaf("text/html", html), Leaf("text/plain", plain)];
    assert IsFirstPlain(ps, 1);
    ExtractBodyFirstPlain(Payload("multipart/alternative", [], outer, Some(ps)), 1);
    DecodeBodyRoundTrip(plain);
  }

  /** Only an HTML child and no data of its own: the body is empty. */
  lemma HtmlOnlyGivesEmpty(html: string)
    ensures ExtractBody(Payload("multipart/alternative", [], Body(None), Some([Leaf("text/html", html)]))) == ""
  {
    ExtractBodyFallsThrough(Payload("multipart/alternative", [], Body(None), Some([Leaf("text/html", html)])));
  }

  /** Plain text one level down, inside a nested multipart child, is not found. */
  lemma NestedPlainNotSearched(plain: string)
    ensures ExtractBody(Payload("multipart/mixed", [], Body(None),
                                Some([Payload("multipart/alternative", [], Body(None), Some([Leaf("text/plain", plain)]))]))) == ""
  {
  }

  /** MIME types are compared case-sensitively, so "TEXT/PLAIN" is skipped. */
  lemma UpperCaseMimeTypeSkipped(plain: string)
    ensures ExtractBody(Payload("multipart/alternative", [], Body(None), Some([Leaf("TEXT/PLAIN", plain)]))) == ""
  {
  }

  /** Base64 data with incomplete padding is reported inline rather than raised. */
  lemma MalformedBase64Reported()
    ensures DecodeBody("QUI") == ErrorPrefix + "invalid base64url data" + ErrorSuffix
  {
    assert Base64Url.Decode("QUI").None?;
  }

  /** Well-formed base64 of octets that are not UTF-8 ("_w==" is the lone octet 0xFF). */
  lemma MalformedUtf8Reported()
    ensures DecodeBody("_w==") == ErrorPrefix + "invalid utf-8 data" + ErrorSuffix
  {
    assert Base64Url.Decode("_w==") == Some([255]);
    assert Utf8.DecodeChar([255]).None?;
  }
}
