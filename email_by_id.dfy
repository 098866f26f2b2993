/**
 * The message-decoding logic of get_email_by_id.py: header lookup, body
 * decoding, choice of the body part of a (possibly multipart) payload, and the
 * flat record built from a fetched Gmail message. The API call that fetches the
 * message is not modelled; a message arrives here as a value.
 */
module EmailById {
  import opened Wrappers
  import Base64Url
  import Utf8

  // ---------------------------------------------------------------------------
  // Message values as returned by the Gmail API (format "full")
  // ---------------------------------------------------------------------------

  datatype Header = Header(name: string, value: string)

  /** A message part's body; `data` is base64url text, absent on multipart containers. */
  datatype Body = Body(data: Option<string>)

  /**
   * A message part. `parts` is None when the part has no "parts" key and
   * Some(children) when it has one, even an empty list.
   */
  datatype Payload = Payload(mimeType: string, headers: seq<Header>, body: Body, parts: Option<seq<Payload>>)

  datatype Message = Message(id: string, threadId: Option<string>, payload: Payload, snippet: Option<string>)

  /** The flat record that the fetcher returns for display. */
  datatype EmailRecord = EmailRecord(
    id: string, threadId: Option<string>,
    subject: string, from: string, to: string, date: string,
    body: string, snippet: string)

  // ---------------------------------------------------------------------------
  // Header lookup
  // ---------------------------------------------------------------------------

  /** ASCII case folding, standing in for Python's `str.lower`. */
  function LowerChar(c: char): (d: char)
    ensures !('A' <= d <= 'Z')
    ensures 'A' <= c <= 'Z' ==> d as int == c as int + 32
    ensures !('A' <= c <= 'Z') ==> d == c
  {
    if 'A' <= c <= 'Z' then (c as int - 'A' as int + 'a' as int) as char else c
  }

  function Lower(s: string): (t: string)
    ensures |t| == |s| && forall i :: 0 <= i < |s| ==> t[i] == LowerChar(s[i])
  {
    seq(|s|, i requires 0 <= i < |s| => LowerChar(s[i]))
  }

  /** Two characters that are equal, or are the capital and small forms of one ASCII letter. */
  predicate SameIgnoringAsciiCase(a: char, b: char) {
    || a == b
    || ('A' <= a <= 'Z' && b as int == a as int + 32)
    || ('A' <= b <= 'Z' && a as int == b as int + 32)
  }

  lemma LowerCharEqual(a: char, b: char)
    ensures LowerChar(a) == LowerChar(b) <==> SameIgnoringAsciiCase(a, b)
  {
    assert LowerChar(a) as int == if 'A' <= a <= 'Z' then a as int + 32 else a as int;
    assert LowerChar(b) as int == if 'A' <= b <= 'Z' then b as int + 32 else b as int;
  }

  /** Two names lower-case to the same text exactly when they agree letter by letter up to ASCII case. */
  lemma LowerEqualIff(a: string, b: string)
    ensures Lower(a) == Lower(b) <==>
      |a| == |b| && forall i :: 0 <= i < |a| ==> SameIgnoringAsciiCase(a[i], b[i])
  {
    if |a| == |b| {
      forall i | 0 <= i < |a| ensures LowerChar(a[i]) == LowerChar(b[i]) <==> SameIgnoringAsciiCase(a[i], b[i]) {
        LowerCharEqual(a[i], b[i]);
      }
      if Lower(a) == Lower(b) {
        forall i | 0 <= i < |a| ensures SameIgnoringAsciiCase(a[i], b[i]) {
          assert Lower(a)[i] == Lower(b)[i];
        }
      }
    }
  }

  predicate NameMatches(h: Header, name: string) {
    Lower(h.name) == Lower(name)
  }

  /** `i` is the position of the first header whose name matches `name`. */
  predicate IsFirstMatch(headers: seq<Header>, name: string, i: int) {
    0 <= i < |headers| && NameMatches(headers[i], name)
    && forall j :: 0 <= j < i ==> !NameMatches(headers[j], name)
  }

  /**
   * get_header_value: the value of the first header whose name equals `name`
   * ignoring case, or None when no header has that name.
   */
  function GetHeaderValue(headers: seq<Header>, name: string): (r: Option<string>)
    ensures r.None? <==> forall i :: 0 <= i < |headers| ==> !NameMatches(headers[i], name)
    ensures r.Some? ==> exists i :: IsFirstMatch(headers, name, i) && r.value == headers[i].value
  {
    if |headers| == 0 then None
    else if NameMatches(headers[0], name) then
      assert IsFirstMatch(headers, name, 0);
      Some(headers[0].value)
    else
      var r := GetHeaderValue(headers[1..], name);
      if r.Some? then
        var i :| IsFirstMatch(headers[1..], name, i) && r.value == headers[1..][i].value;
        assert IsFirstMatch(headers, name, i + 1);
        r
      else r
  }

  /** Only one position can be the first match. */
  lemma FirstMatchUnique(headers: seq<Header>, name: string, i: int, j: int)
    requires IsFirstMatch(headers, name, i) && IsFirstMatch(headers, name, j)
    ensures i == j
  {
  }

  /** The lookup returns exactly the value at the first matching position. */
  lemma GetHeaderValueAt(headers: seq<Header>, name: string, i: int)
    requires IsFirstMatch(headers, name, i)
    ensures GetHeaderValue(headers, name) == Some(headers[i].value)
  {
    var r := GetHeaderValue(headers, name);
    assert r.Some?;
    var k :| IsFirstMatch(headers, name, k) && r.value == headers[k].value;
    FirstMatchUnique(headers, name, i, k);
  }

  lemma LowerIdempotent(s: string)
    ensures Lower(Lower(s)) == Lower(s)
  {
  }

  /** Queries that differ only in letter case give the same lookup result. */
  lemma {:induction false} GetHeaderValueCaseInsensitive(headers: seq<Header>, n1: string, n2: string)
    requires Lower(n1) == Lower(n2)
    ensures GetHeaderValue(headers, n1) == GetHeaderValue(headers, n2)
    decreases |headers|
  {
    if |headers| > 0 {
      GetHeaderValueCaseInsensitive(headers[1..], n1, n2);
    }
  }

  /** Queries that agree letter by letter up to ASCII case ("SUBJECT", "subject") give the same result. */
  lemma GetHeaderValueIgnoresAsciiCase(headers: seq<Header>, n1: string, n2: string)
    requires |n1| == |n2| && forall i :: 0 <= i < |n1| ==> SameIgnoringAsciiCase(n1[i], n2[i])
    ensures GetHeaderValue(headers, n1) == GetHeaderValue(headers, n2)
  {
    LowerEqualIff(n1, n2);
    GetHeaderValueCaseInsensitive(headers, n1, n2);
  }

  /** Looking up the lower-cased name is the same as looking up the name. */
  lemma GetHeaderValueLowered(headers: seq<Header>, name: string)
    ensures GetHeaderValue(headers, Lower(name)) == GetHeaderValue(headers, name)
  {
    LowerIdempotent(name);
    GetHeaderValueCaseInsensitive(headers, Lower(name), name);
  }

  // ---------------------------------------------------------------------------
  // Body decoding
  // ---------------------------------------------------------------------------

  /** The two ways decoding can fail: the text is not base64, or the octets are not UTF-8. */
  datatype DecodeError = MalformedBase64 | MalformedUtf8

  const ErrorPrefix: string := "[Error decoding body: "
  const ErrorSuffix: string := "]"

  /** Stands in for the text of the exception Python reports. */
  function Describe(e: DecodeError): string {
    match e
    case MalformedBase64 => "invalid base64url data"
    case MalformedUtf8 => "invalid utf-8 data"
  }

  /** base64url text to octets to UTF-8 text, or the first step that fails. */
  function DecodeData(data: string): (r: Result<string, DecodeError>)
    ensures r == Err(MalformedBase64) <==> Base64Url.Decode(data).None?
    ensures r == Err(MalformedUtf8) <==>
      Base64Url.Decode(data).Some? && Utf8.Decode(Base64Url.Decode(data).value).None?
    ensures r.Ok? ==> Base64Url.Decode(data) == Some(Utf8.Encode(r.value))
  {
    match Base64Url.Decode(data)
    case None => Err(MalformedBase64)
    case Some(octets) =>
      match Utf8.Decode(octets)
      case None => Err(MalformedUtf8)
      case Some(text) =>
        Utf8.EncodeDecode(octets);
        Ok(text)
  }

  /**
   * decode_body: empty data gives the empty string; otherwise the decoded text,
   * or an inline error description when decoding fails. It never fails itself.
   */
  function DecodeBody(data: string): (r: string)
    ensures data == "" ==> r == ""
    ensures data != "" && DecodeData(data).Err? ==>
      r == ErrorPrefix + Describe(DecodeData(data).error) + ErrorSuffix
    ensures data != "" && DecodeData(data).Ok? ==> r == DecodeData(data).value
  {
    if data == "" then ""
    else
      match DecodeData(data)
      case Ok(text) => text
      case Err(e) => ErrorPrefix + Describe(e) + ErrorSuffix
  }

  /** Round trip: the base64url encoding of the UTF-8 encoding of any text decodes to that text. */
  lemma DecodeBodyRoundTrip(s: string)
    ensures DecodeBody(Base64Url.Encode(Utf8.Encode(s))) == s
  {
    Base64Url.DecodeEncode(Utf8.Encode(s));
    Utf8.DecodeEncode(s);
  }

  /** A failed decoding is reported inline: the text starts with the error prefix and ends with "]". */
  lemma DecodeBodyErrorShape(data: string)
    requires data != "" && DecodeData(data).Err?
    ensures |DecodeBody(data)| > |ErrorPrefix| + |ErrorSuffix|
    ensures DecodeBody(data)[..|ErrorPrefix|] == ErrorPrefix
    ensures DecodeBody(data)[|DecodeBody(data)| - 1] == ']'
  {
  }

  /**
   * Successful decoding is exact: data that decodes without error carries
   * the UTF-8 octets of the result, and data in the form the encoder writes
   * (URL-safe alphabet, zero padding bits) is exactly the result's encoding.
   */
  lemma DecodeBodySuccess(data: string)
    requires data != "" && DecodeData(data).Ok?
    ensures Base64Url.Decode(data) == Some(Utf8.Encode(DecodeBody(data)))
    ensures Base64Url.IsCanonical(data) ==> data == Base64Url.Encode(Utf8.Encode(DecodeBody(data)))
  {
    if Base64Url.IsCanonical(data) {
      Base64Url.EncodeDecode(data);
    }
  }

  // ---------------------------------------------------------------------------
  // Body extraction
  // ---------------------------------------------------------------------------

  const TextPlain: string := "text/plain"
  const TextHtml: string := "text/html"

  /** `part["body"].get("data", "")` */
  function PartData(p: Payload): (r: string)
    ensures p.body.data.None? ==> r == ""
    ensures p.body.data.Some? ==> r == p.body.data.value
  {
    p.body.data.GetOr("")
  }

  /** The loop at the heart of extract_body returns from `part` here. */
  predicate Selected(part: Payload, outerHasParts: bool) {
    part.mimeType == TextPlain || (part.mimeType == TextHtml && !outerHasParts)
  }

  /**
   * The `for part in payload["parts"]` loop: the index of the first part it
   * returns from, or None when it runs to the end. `outerHasParts` is the
   * value of `"parts" in payload`, which the HTML test consults.
   */
  function ScanParts(parts: seq<Payload>, outerHasParts: bool): (r: Option<nat>)
    ensures r.Some? ==> r.value < |parts| && Selected(parts[r.value], outerHasParts)
    ensures r.Some? ==> forall j :: 0 <= j < r.value ==> !Selected(parts[j], outerHasParts)
    ensures r.None? ==> forall j :: 0 <= j < |parts| ==> !Selected(parts[j], outerHasParts)
  {
    if |parts| == 0 then None
    else if parts[0].mimeType == TextPlain then Some(0)
    else if parts[0].mimeType == TextHtml && !outerHasParts then Some(0)
    else
      match ScanParts(parts[1..], outerHasParts)
      case None => None
      case Some(i) => Some(i + 1)
  }

  /**
   * extract_body: when the payload has parts, the decoded data of the first
   * direct child whose type is exactly "text/plain"; otherwise, and when no
   * child matches, the decoded data of the payload's own body. The HTML
   * branch requires the payload to have no parts inside the branch where it
   * has them, so a text/html part is never chosen.
   */
  function ExtractBody(p: Payload): (r: string)
    ensures || r == DecodeBody(PartData(p))
            || (p.parts.Some? && exists i :: (0 <= i < |p.parts.value| && p.parts.value[i].mimeType == TextPlain
                                              && r == DecodeBody(PartData(p.parts.value[i]))))
  {
    match p.parts
    case Some(ps) =>
      (match ScanParts(ps, p.parts.Some?)
       case Some(i) => DecodeBody(PartData(ps[i]))
       case None => DecodeBody(PartData(p)))
    case None => DecodeBody(PartData(p))
  }

  /** `i` is the first direct child whose type is exactly "text/plain". */
  predicate IsFirstPlain(parts: seq<Payload>, i: int) {
    0 <= i < |parts| && parts[i].mimeType == TextPlain
    && forall j :: 0 <= j < i ==> parts[j].mimeType != TextPlain
  }

  /** With a text/plain child, the first such child's data is decoded; later parts and the outer body are ignored. */
  lemma ExtractBodyFirstPlain(p: Payload, i: int)
    requires p.parts.Some? && IsFirstPlain(p.parts.value, i)
    ensures ExtractBody(p) == DecodeBody(PartData(p.parts.value[i]))
  {
    var ps := p.parts.value;
    assert Selected(ps[i], true);
    var k := ScanParts(ps, true);
    assert k.Some? && k.value <= i;
    assert ps[k.value].mimeType == TextPlain;
  }

  /**
   * Without parts, with no parts at all, or with no direct text/plain child
   * (including plain text nested one level deeper, which is not searched), the
   * payload's own body data is decoded, "" when it has none.
   */
  lemma ExtractBodyFallsThrough(p: Payload)
    requires p.parts.None? || forall j :: 0 <= j < |p.parts.value| ==> p.parts.value[j].mimeType != TextPlain
    ensures ExtractBody(p) == DecodeBody(PartData(p))
    ensures p.body.data.None? ==> ExtractBody(p) == ""
  {
    if p.parts.Some? {
      assert ScanParts(p.parts.value, true).None?;
    }
  }

  /** The HTML fallback is live only for a parts list scanned on behalf of a payload without parts. */
  lemma HtmlFallbackUnreachable(parts: seq<Payload>)
    ensures ScanParts(parts, true).Some? ==> parts[ScanParts(parts, true).value].mimeType == TextPlain
    ensures |parts| > 0 && parts[0].mimeType == TextHtml ==> ScanParts(parts, false) == Some(0)
  {
  }

  /**
   * The result depends on each direct child only through its type and data:
   * what sits inside a nested multipart child is never looked at.
   */
  lemma ExtractBodyIgnoresGrandchildren(p: Payload, q: Payload)
    requires p.body == q.body && p.parts.Some? == q.parts.Some?
    requires p.parts.Some? ==> |p.parts.value| == |q.parts.value|
    requires p.parts.Some? ==> forall j :: 0 <= j < |p.parts.value| ==>
      p.parts.value[j].mimeType == q.parts.value[j].mimeType && p.parts.value[j].body == q.parts.value[j].body
    ensures ExtractBody(p) == ExtractBody(q)
  {
    if p.parts.Some? {
      var ps, qs := p.parts.value, q.parts.value;
      if j :| IsFirstPlain(ps, j) {
        assert IsFirstPlain(qs, j);
        ExtractBodyFirstPlain(p, j);
        ExtractBodyFirstPlain(q, j);
      } else {
        forall j | 0 <= j < |ps| ensures ps[j].mimeType != TextPlain {
          if ps[j].mimeType == TextPlain {
            LeastPlain(ps, j);
          }
        }
        ExtractBodyFallsThrough(p);
        ExtractBodyFallsThrough(q);
      }
    }
  }

  /** If some child is text/plain, there is a first one. */
  lemma {:induction false} LeastPlain(parts: seq<Payload>, j: int)
    requires 0 <= j < |parts| && parts[j].mimeType == TextPlain
    ensures exists i :: IsFirstPlain(parts, i)
    decreases j
  {
    if IsFirstPlain(parts, j) {
    } else {
      var k :| 0 <= k < j && parts[k].mimeType == TextPlain;
      LeastPlain(parts, k);
    }
  }

  // ---------------------------------------------------------------------------
  // The record built by fetch_email_by_id
  // ---------------------------------------------------------------------------

  const NoSubject: string := "[No Subject]"
  const UnknownSender: string := "[Unknown Sender]"
  const UnknownRecipient: string := "[Unknown Recipient]"
  const UnknownDate: string := "[Unknown Date]"

  /** `get_header_value(headers, name) or default`: None and "" both fall back. */
  function HeaderOr(headers: seq<Header>, name: string, default: string): (r: string)
    ensures default != "" ==> r != ""
  {
    match GetHeaderValue(headers, name)
    case Some(v) => if v != "" then v else default
    case None => default
  }

  /**
   * The value of `name` in the record: the first matching header's value when
   * that is non-empty, the default otherwise (a later header with the same
   * name never takes over from an empty first one).
   */
  lemma HeaderOrSpec(headers: seq<Header>, name: string, default: string)
    ensures forall i :: IsFirstMatch(headers, name, i) ==>
      HeaderOr(headers, name, default) == if headers[i].value != "" then headers[i].value else default
    ensures (forall i :: 0 <= i < |headers| ==> !NameMatches(headers[i], name)) ==>
      HeaderOr(headers, name, default) == default
  {
    forall i | IsFirstMatch(headers, name, i)
      ensures HeaderOr(headers, name, default) == if headers[i].value != "" then headers[i].value else default
    {
      GetHeaderValueAt(headers, name, i);
    }
  }

  /** The dictionary literal of fetch_email_by_id, for an already fetched message. */
  function BuildRecord(m: Message): (r: EmailRecord)
    ensures r.id == m.id && r.threadId == m.threadId
    ensures r.subject != "" && r.from != "" && r.to != "" && r.date != ""
    ensures r.body == ExtractBody(m.payload)
    ensures r.snippet == if m.snippet.Some? then m.snippet.value else ""
  {
    var headers := m.payload.headers;
    EmailRecord(
      m.id,
      m.threadId,
      HeaderOr(headers, "Subject", NoSubject),
      HeaderOr(headers, "From", UnknownSender),
      HeaderOr(headers, "To", UnknownRecipient),
      HeaderOr(headers, "Date", UnknownDate),
      ExtractBody(m.payload),
      m.snippet.GetOr(""))
  }

  /** Each header field of the record in terms of the message's header list. */
  lemma RecordHeaderFields(m: Message)
    ensures var h, r := m.payload.headers, BuildRecord(m);
      && (forall i :: IsFirstMatch(h, "Subject", i) ==> r.subject == if h[i].value != "" then h[i].value else NoSubject)
      && (forall i :: IsFirstMatch(h, "From", i) ==> r.from == if h[i].value != "" then h[i].value else UnknownSender)
      && (forall i :: IsFirstMatch(h, "To", i) ==> r.to == if h[i].value != "" then h[i].value else UnknownRecipient)
      && (forall i :: IsFirstMatch(h, "Date", i) ==> r.date == if h[i].value != "" then h[i].value else UnknownDate)
    ensures var h, r := m.payload.headers, BuildRecord(m);
      && ((forall i :: 0 <= i < |h| ==> !NameMatches(h[i], "Subject")) ==> r.subject == NoSubject)
      && ((forall i :: 0 <= i < |h| ==> !NameMatches(h[i], "From")) ==> r.from == UnknownSender)
      && ((forall i :: 0 <= i < |h| ==> !NameMatches(h[i], "To")) ==> r.to == UnknownRecipient)
      && ((forall i :: 0 <= i < |h| ==> !NameMatches(h[i], "Date")) ==> r.date == UnknownDate)
  {
    var h := m.payload.headers;
    HeaderOrSpec(h, "Subject", NoSubject);
    HeaderOrSpec(h, "From", UnknownSender);
    HeaderOrSpec(h, "To", UnknownRecipient);
    HeaderOrSpec(h, "Date", UnknownDate);
  }
}
