/**
 * The common shape of every reply link both providers build: a fixed lead
 * (scheme, host, path and the key of the recipient parameter), the encoded
 * recipient, then `subject` and `body` parameters whose values are encoded the
 * same way. `Parse` reads such a link back, and `RoundTrip` proves that it
 * recovers the recipient, subject and body exactly.
 */
module ReplyLinks {
  import opened Wrappers
  import opened Text
  import opened UrlEncoding

  datatype LinkShape = LinkShape(lead: string, subjectKey: string, bodyKey: string, flavor: Flavor)

  /** A parameter separator starts with a character (`?` or `&`) the encoders never emit. */
  predicate IsSeparator(sep: string) {
    |sep| > 0 && !IsEncodedChar(sep[0])
  }

  predicate WellFormed(shape: LinkShape) {
    IsSeparator(shape.subjectKey) && IsSeparator(shape.bodyKey)
  }

  function Render(shape: LinkShape, to: string, subject: string, body: string): string {
    shape.lead + Encode(shape.flavor, to) + shape.subjectKey + Encode(shape.flavor, subject)
    + shape.bodyKey + Encode(shape.flavor, body)
  }

  lemma RenderLength(shape: LinkShape, to: string, subject: string, body: string)
    ensures |Render(shape, to, subject, body)| >= |shape.subjectKey| + |shape.bodyKey|
  {
  }

  /** Splits `s` at the first occurrence of the first character of `sep`, which must start `sep` there. */
  function TakeField(s: string, sep: string): (r: Option<(string, string)>)
    ensures r.Some? ==> s == r.value.0 + sep + r.value.1
  {
    if sep == [] then None
    else
      var i := Find(s, sep[0]);
      if i == -1 || !StartsWith(s[i..], sep) then None
      else
        assert s == s[..i] + sep + s[i + |sep|..] by {
          assert s[i..] == sep + s[i + |sep|..];
        }
        Some((s[..i], s[i + |sep|..]))
  }

  function Parse(shape: LinkShape, link: string): Option<(string, string, string)> {
    if !StartsWith(link, shape.lead) then None
    else
      match TakeField(link[|shape.lead|..], shape.subjectKey)
      case None => None
      case Some((encTo, rest)) =>
        match TakeField(rest, shape.bodyKey)
        case None => None
        case Some((encSubject, encBody)) =>
          match (Decode(shape.flavor, encTo), Decode(shape.flavor, encSubject), Decode(shape.flavor, encBody))
          case (Some(to), Some(subject), Some(body)) => Some((to, subject, body))
          case _ => None
  }

  lemma TakeFieldAfterEncoded(e: string, sep: string, y: string)
    requires IsSeparator(sep)
    requires forall i :: 0 <= i < |e| ==> IsEncodedChar(e[i])
    ensures TakeField(e + sep + y, sep) == Some((e, y))
  {
    var s := e + sep + y;
    var c := sep[0];
    assert s[|e|] == c;
    assert Find(s, c) == |e|;
    assert s[..|e|] == e;
    assert s[|e|..] == sep + y;
    assert s[|e| + |sep|..] == y;
  }

  lemma Reassociate(lead: string, a: string, k1: string, b: string, k2: string, c: string)
    ensures lead + a + k1 + b + k2 + c == lead + (a + k1 + (b + k2 + c))
  {
  }

  /** Reading a rendered link back gives the recipient, subject and body it was built from. */
  lemma RoundTrip(shape: LinkShape, to: string, subject: string, body: string)
    requires WellFormed(shape)
    ensures Parse(shape, Render(shape, to, subject, body)) == Some((to, subject, body))
  {
    var f := shape.flavor;
    var link := Render(shape, to, subject, body);
    var tail := Encode(f, subject) + shape.bodyKey + Encode(f, body);
    var afterLead := Encode(f, to) + shape.subjectKey + tail;
    Reassociate(shape.lead, Encode(f, to), shape.subjectKey, Encode(f, subject), shape.bodyKey, Encode(f, body));
    assert link == shape.lead + afterLead;
    assert link[|shape.lead|..] == afterLead;
    TakeFieldAfterEncoded(Encode(f, to), shape.subjectKey, tail);
    TakeFieldAfterEncoded(Encode(f, subject), shape.bodyKey, Encode(f, body));
    DecodeEncode(f, to);
    DecodeEncode(f, subject);
    DecodeEncode(f, body);
  }

  /** Gmail's compose window, the same in both scripts. */
  const GmailCompose: LinkShape :=
    LinkShape("https://mail.google.com/mail/?view=cm&fs=1&to=", "&su=", "&body=", QuotePlus)

  /** Outlook.com's compose form, the same in both scripts. */
  const OutlookLiveCompose: LinkShape :=
    LinkShape("https://outlook.live.com/owa/?path=/mail/action/compose&to=", "&subject=", "&body=", QuotePlus)

  /** The modes that select Outlook on the web for work accounts. */
  predicate IsOfficeMode(mode: string) {
    mode == "outlook_office" || mode == "outlook365" || mode == "owa"
  }

  /** The modes that select Outlook.com. */
  predicate IsLiveMode(mode: string) {
    mode == "outlook_live" || mode == "outlook_com" || mode == "outlook"
  }

  /** A parameter key that starts with `&` or `?` separates fields unambiguously. */
  lemma KeySeparates(key: string)
    requires key != [] && (key[0] == '&' || key[0] == '?')
    ensures IsSeparator(key)
  {
  }

  lemma SharedShapesWellFormed()
    ensures WellFormed(GmailCompose) && WellFormed(OutlookLiveCompose)
  {
    KeySeparates(GmailCompose.subjectKey);
    KeySeparates(GmailCompose.bodyKey);
    KeySeparates(OutlookLiveCompose.subjectKey);
  }
}
