/**
 * What both providers share once a conversation has been aggregated: the
 * thread record handed to the summariser, the summariser's JSON payload, the
 * normalisation of its reply drafts, the digest entry, and the two render
 * helpers (the reply subject and the escaping of the visible reply body).
 */
module Digest {
  import opened Wrappers
  import opened Text
  import opened ReplyLinks

  /** One aggregated conversation: `{"subject", "sender", "thread_text", "reply_to"}`. */
  datatype ThreadSummary = ThreadSummary(subject: string, sender: string, transcript: seq<string>, replyTo: string)

  /**
   * The summariser's JSON object. A missing, null or empty field is "" (or []),
   * which is all the source distinguishes with its `or ''` / `or []` defaults.
   */
  datatype Draft = Draft(labelText: string, body: string)
  datatype Payload = Payload(summary: string, action: string, replies: seq<Draft>)

  const EmptyPayload: Payload := Payload("", "", [])

  /** What joins a sender to their words in a transcript line. */
  const Said: string := " said: "

  /** The subject used when a thread has none. */
  const NoSubject: string := "No Subject"

  /** `json.loads`, abstracted: it either yields an object or fails. */
  type JsonParser = string -> Option<Payload>

  /** The summarisation service: one opaque text response per thread. */
  type Summarizer = ThreadSummary -> string

  /** `parseaddr(text)[1]`: the address part `email.utils.parseaddr` finds in `text`, possibly "". */
  type AddressParser = string -> string

  /** Which of the three parse paths produced the data. */
  datatype ParseOutcome = Parsed(data: Payload) | Salvaged(data: Payload) | Unparsed

  function DataOf(o: ParseOutcome): (p: Payload)
    ensures o.Unparsed? ==> p == EmptyPayload
  {
    if o.Unparsed? then EmptyPayload else o.data
  }

  datatype ReplyOption = ReplyOption(labelText: string, body: string)

  datatype DigestEntry = DigestEntry(
    sender: string, subject: string, summary: string, action: string,
    replies: seq<ReplyOption>, replyTo: string)

  /** At most this many reply drafts are looked at. */
  const MaxReplies: nat := 3

  /** A button label: non-empty, no space, no '/', no upper-case letter. */
  predicate IsLabel(l: string) {
    l != [] && ' ' !in l && '/' !in l && IsLowerCase(l)
  }

  /** The label used when normalisation leaves nothing. */
  const DefaultLabel: string := "reply"

  lemma DefaultLabelIsLabel()
    ensures IsLabel(DefaultLabel)
  {
  }

  /** `label.strip().replace(' ', '-').split('/')[0]`: the label before lower-casing. */
  function LabelStem(raw: string): (v: string)
    ensures ' ' !in v && '/' !in v
    ensures |v| <= |Strip(raw)|
    ensures var u := ReplaceAll(Strip(raw), ' ', "-"); v <= u && (|v| == |u| || u[|v|] == '/')
  {
    var u := ReplaceAll(Strip(raw), ' ', "-");
    var v := BeforeFirst(u, '/');
    PrefixAvoids(v, u, ' ');
    v
  }

  /** `label.strip().replace(' ', '-').split('/')[0].lower() or 'reply'`. */
  function NormalizeLabel(raw: string): (r: string)
    ensures IsLabel(r)
    ensures r == if LabelStem(raw) == [] then DefaultLabel else Lower(LabelStem(raw))
  {
    var v := LabelStem(raw);
    LowerAvoids(v, ' ');
    LowerAvoids(v, '/');
    LowerIsLowerCase(v);
    var t := Lower(v);
    if t == [] then DefaultLabelIsLabel(); DefaultLabel else t
  }

  predicate IsAsciiLetter(c: char) {
    'a' <= c <= 'z' || 'A' <= c <= 'Z'
  }

  lemma ReplaceSpaceExample(x: char, y: char, z: char)
    requires IsAsciiLetter(x) && IsAsciiLetter(y) && IsAsciiLetter(z)
    ensures ReplaceAll([x, ' ', y, '/', z], ' ', "-") == [x, '-', y, '/', z]
  {
    var s := [x, ' ', y, '/', z];
    assert s[1..][1..] == [y, '/', z];
    assert ReplaceAll([y, '/', z], ' ', "-") == [y, '/', z];
  }

  lemma BeforeSlashExample(x: char, y: char, z: char)
    requires IsAsciiLetter(x) && IsAsciiLetter(y) && IsAsciiLetter(z)
    ensures BeforeFirst([x, '-', y, '/', z], '/') == [x, '-', y]
  {
    var u := [x, '-', y, '/', z];
    assert u[1..] == ['-', y, '/', z] && u[1..][1..] == [y, '/', z] && u[1..][1..][1..] == ['/', z];
    assert BeforeFirst([y, '/', z], '/') == [y];
    assert BeforeFirst(['-', y, '/', z], '/') == ['-', y];
  }

  lemma LabelStemExample(x: char, y: char, z: char)
    requires IsAsciiLetter(x) && IsAsciiLetter(y) && IsAsciiLetter(z)
    ensures LabelStem([x, ' ', y, '/', z]) == [x, '-', y]
  {
    StripOfStripped([x, ' ', y, '/', z]);
    ReplaceSpaceExample(x, y, z);
    BeforeSlashExample(x, y, z);
  }

  lemma LowerDashExample(x: char, y: char)
    ensures Lower([x, '-', y]) == [LowerChar(x), '-', LowerChar(y)]
  {
    var v := [x, '-', y];
    assert v[1..] == ['-', y] && v[1..][1..] == [y];
    assert Lower([y]) == [LowerChar(y)];
    assert Lower(['-', y]) == ['-', LowerChar(y)];
  }

  /** `"X Y/z"` becomes `"x-y"`: spaces to dashes, cut at '/', lower-cased. */
  lemma NormalizeLabelExample(x: char, y: char, z: char)
    requires IsAsciiLetter(x) && IsAsciiLetter(y) && IsAsciiLetter(z)
    ensures NormalizeLabel([x, ' ', y, '/', z]) == [LowerChar(x), '-', LowerChar(y)]
  {
    LabelStemExample(x, y, z);
    LowerDashExample(x, y);
  }

  /** A label that is empty after stripping falls back to the default. */
  lemma NormalizeLabelBlank(raw: string)
    requires Strip(raw) == []
    ensures NormalizeLabel(raw) == DefaultLabel
  {
  }

  lemma ReplaceAllHead(s: string, target: char, replacement: string)
    requires s != [] && replacement != []
    ensures ReplaceAll(s, target, replacement) != []
    ensures ReplaceAll(s, target, replacement)[0] == if s[0] == target then replacement[0] else s[0]
  {
  }

  /** A normalised label never starts with whitespace. */
  lemma NormalizeLabelHead(raw: string)
    ensures !IsSpace(NormalizeLabel(raw)[0])
  {
    var s := Strip(raw);
    var v := LabelStem(raw);
    if v != [] {
      ReplaceAllHead(s, ' ', "-");
      assert v[0] == ReplaceAll(s, ' ', "-")[0];
      assert Lower(v)[0] == LowerChar(v[0]);
    }
  }

  /** A valid label with no whitespace at either end normalises to itself. */
  lemma NormalizeLabelFixed(r: string)
    requires IsLabel(r) && IsStripped(r)
    ensures NormalizeLabel(r) == r
  {
    StripOfStripped(r);
    assert LabelStem(r) == r;
    LowerOfLowerCase(r);
  }

  /** A label ending in whitespace normalises to something strictly shorter, or to the default. */
  lemma NormalizeLabelShrinks(r: string)
    requires IsLabel(r) && IsSpace(r[|r| - 1])
    ensures NormalizeLabel(r) != r
  {
    var s := Strip(r);
    assert |Lower(LabelStem(r))| < |r|;
  }

  /**
   * Normalising a normalised label changes it exactly when it ends in
   * whitespace, which happens when whitespace stood just before the first '/'.
   */
  lemma NormalizeLabelIdempotentIff(raw: string)
    ensures var r := NormalizeLabel(raw);
      NormalizeLabel(r) == r <==> !IsSpace(r[|r| - 1])
  {
    var r := NormalizeLabel(raw);
    NormalizeLabelHead(raw);
    if IsSpace(r[|r| - 1]) {
      NormalizeLabelShrinks(r);
    } else {
      NormalizeLabelFixed(r);
    }
  }

  lemma LabelStemKeepsTab(c: char)
    requires 'a' <= c <= 'z'
    ensures LabelStem([c, '\t', '/']) == [c, '\t']
  {
    var s := [c, '\t', '/'];
    StripOfStripped(s);
  }

  /** Whitespace just before the first '/' survives the first pass... */
  lemma NormalizeLabelKeepsTab(c: char)
    requires 'a' <= c <= 'z'
    ensures NormalizeLabel([c, '\t', '/']) == [c, '\t']
  {
    LabelStemKeepsTab(c);
    assert Lower([c, '\t']) == [c, '\t'];
  }

  lemma LabelStemDropsTab(c: char)
    requires 'a' <= c <= 'z'
    ensures LabelStem([c, '\t']) == [c]
  {
    var s := [c, '\t'];
    assert Strip(s[..1]) == [c];
  }

  /** ...and is stripped by the second... */
  lemma NormalizeLabelDropsTab(c: char)
    requires 'a' <= c <= 'z'
    ensures NormalizeLabel([c, '\t']) == [c]
  {
    LabelStemDropsTab(c);
    assert Lower([c]) == [c];
  }

  /** ...so normalising twice differs from normalising once. */
  lemma NormalizeLabelNotIdempotent(c: char)
    requires 'a' <= c <= 'z'
    ensures NormalizeLabel(NormalizeLabel([c, '\t', '/'])) != NormalizeLabel([c, '\t', '/'])
  {
    NormalizeLabelKeepsTab(c);
    NormalizeLabelDropsTab(c);
  }

  predicate IsReplyOption(o: ReplyOption) {
    IsLabel(o.labelText) && o.body != [] && IsStripped(o.body)
  }

  /** One draft: dropped when its stripped body is empty. */
  function NormalizeDraft(d: Draft): (r: Option<ReplyOption>)
    ensures r.Some? <==> Strip(d.body) != []
    ensures r.Some? ==> IsReplyOption(r.value) && r.value.body == Strip(d.body)
  {
    var body := Strip(d.body);
    if body == [] then None else Some(ReplyOption(NormalizeLabel(d.labelText), body))
  }

  /** `replies[:3]`. */
  function Capped(drafts: seq<Draft>): (r: seq<Draft>)
    ensures |r| <= MaxReplies && r <= drafts
    ensures |drafts| <= MaxReplies ==> r == drafts
    ensures |drafts| > MaxReplies ==> |r| == MaxReplies
  {
    if |drafts| <= MaxReplies then drafts else drafts[..MaxReplies]
  }

  /** The defined images under `f` of the elements of `xs`, in order. */
  function FilterMap<A, B>(f: A -> Option<B>, xs: seq<A>): seq<B> {
    if xs == [] then []
    else FilterMap(f, xs[..|xs| - 1]) + (match f(xs[|xs| - 1]) case Some(y) => [y] case None => [])
  }

  lemma {:induction false} FilterMapBound<A, B>(f: A -> Option<B>, xs: seq<A>)
    ensures |FilterMap(f, xs)| <= |xs|
  {
    if xs != [] {
      FilterMapBound(f, xs[..|xs| - 1]);
    }
  }

  /** Every element of the result is the image of some element of `xs`. */
  lemma {:induction false} FilterMapSound<A, B>(f: A -> Option<B>, xs: seq<A>, y: B)
    requires y in FilterMap(f, xs)
    ensures exists i :: 0 <= i < |xs| && f(xs[i]) == Some(y)
  {
    var init := xs[..|xs| - 1];
    if y in FilterMap(f, init) {
      FilterMapSound(f, init, y);
      var i :| 0 <= i < |init| && f(init[i]) == Some(y);
      assert xs[i] == init[i];
    }
  }

  /** Every defined image is in the result. */
  lemma {:induction false} FilterMapComplete<A, B>(f: A -> Option<B>, xs: seq<A>, i: nat)
    requires i < |xs| && f(xs[i]).Some?
    ensures f(xs[i]).value in FilterMap(f, xs)
  {
    var init := xs[..|xs| - 1];
    if i < |init| {
      assert init[i] == xs[i];
      FilterMapComplete(f, init, i);
    }
  }

  lemma FilterMapSnoc<A, B>(f: A -> Option<B>, xs: seq<A>, k: nat)
    requires k < |xs|
    ensures FilterMap(f, xs[..k + 1])
      == FilterMap(f, xs[..k]) + (match f(xs[k]) case Some(y) => [y] case None => [])
  {
    assert xs[..k + 1][..k] == xs[..k];
  }

  /** Nothing is dropped when every image is defined. */
  lemma {:induction false} FilterMapAll<A, B>(f: A -> Option<B>, xs: seq<A>)
    requires forall i :: 0 <= i < |xs| ==> f(xs[i]).Some?
    ensures |FilterMap(f, xs)| == |xs|
  {
    if xs != [] {
      FilterMapAll(f, xs[..|xs| - 1]);
    }
  }

  /** `[f(x) for x in xs]`. */
  function MapSeq<A, B>(f: A -> B, xs: seq<A>): (r: seq<B>)
    ensures |r| == |xs|
    ensures forall i :: 0 <= i < |xs| ==> r[i] == f(xs[i])
  {
    if xs == [] then [] else MapSeq(f, xs[..|xs| - 1]) + [f(xs[|xs| - 1])]
  }

  /** The normalised forms of the first three drafts whose bodies are non-blank, in order. */
  function NormalizedReplies(drafts: seq<Draft>): seq<ReplyOption> {
    FilterMap(NormalizeDraft, Capped(drafts))
  }

  /**
   * The normalised replies: at most three, each with a well-formed label and a
   * non-blank stripped body, exactly the normalised forms of those of the first
   * three drafts whose bodies are non-blank; none is lost when all of them are.
   */
  lemma NormalizedRepliesBound(drafts: seq<Draft>)
    ensures |NormalizedReplies(drafts)| <= MaxReplies
    ensures forall o :: o in NormalizedReplies(drafts) ==> IsReplyOption(o)
  {
    var c := Capped(drafts);
    FilterMapBound(NormalizeDraft, c);
    forall o | o in NormalizedReplies(drafts)
      ensures IsReplyOption(o)
    {
      FilterMapSound(NormalizeDraft, c, o);
    }
  }

  /** Every normalised reply comes from one of the first three drafts. */
  lemma NormalizedRepliesSound(drafts: seq<Draft>, o: ReplyOption)
    requires o in NormalizedReplies(drafts)
    ensures exists i :: 0 <= i < |drafts| && i < MaxReplies && NormalizeDraft(drafts[i]) == Some(o)
  {
    var c := Capped(drafts);
    FilterMapSound(NormalizeDraft, c, o);
    var i :| 0 <= i < |c| && NormalizeDraft(c[i]) == Some(o);
    assert c[i] == drafts[i];
  }

  /** Each of the first three drafts with a non-blank body yields a reply. */
  lemma NormalizedRepliesComplete(drafts: seq<Draft>, i: nat)
    requires i < |drafts| && i < MaxReplies && Strip(drafts[i].body) != []
    ensures ReplyOption(NormalizeLabel(drafts[i].labelText), Strip(drafts[i].body)) in NormalizedReplies(drafts)
  {
    var c := Capped(drafts);
    assert c[i] == drafts[i];
    FilterMapComplete(NormalizeDraft, c, i);
  }

  /** When all of the first three bodies are non-blank, none is lost. */
  lemma NormalizedRepliesAll(drafts: seq<Draft>)
    requires forall i :: 0 <= i < |drafts| && i < MaxReplies ==> Strip(drafts[i].body) != []
    ensures |NormalizedReplies(drafts)| == |Capped(drafts)|
  {
    var c := Capped(drafts);
    forall i | 0 <= i < |c| ensures NormalizeDraft(c[i]).Some? {
      assert c[i] == drafts[i];
    }
    FilterMapAll(NormalizeDraft, c);
  }

  /** The loop over `replies[:3]` that appends each draft with a non-blank body. */
  method NormalizeReplies(drafts: seq<Draft>) returns (normalized: seq<ReplyOption>)
    ensures normalized == NormalizedReplies(drafts)
  {
    var capped := Capped(drafts);
    normalized := [];
    for k := 0 to |capped|
      invariant normalized == FilterMap(NormalizeDraft, capped[..k])
    {
      FilterMapSnoc(NormalizeDraft, capped, k);
      var body := Strip(capped[k].body);
      if body != [] {
        normalized := normalized + [ReplyOption(NormalizeLabel(capped[k].labelText), body)];
      }
    }
    assert capped[..|capped|] == capped;
  }

  /**
   * `raw[raw.find('{'):raw.rfind('}') + 1]` for a response holding both
   * braces: the text from the first `{` through the last `}`, or "" when the
   * last `}` comes before the first `{`.
   */
  function BraceSpan(raw: string): (r: string)
    requires '{' in raw && '}' in raw
    ensures r == [] <==> RFind(raw, '}') < Find(raw, '{')
    ensures r != [] ==> r == raw[Find(raw, '{')..RFind(raw, '}') + 1] && r[0] == '{' && r[|r| - 1] == '}'
  {
    Slice(raw, Find(raw, '{'), RFind(raw, '}') + 1)
  }

  /** The digest entry for one thread from the parsed (or empty) payload. */
  function EntryFor(thread: ThreadSummary, data: Payload): DigestEntry {
    DigestEntry(thread.sender, thread.subject, Strip(data.summary), Strip(data.action),
      NormalizedReplies(data.replies), thread.replyTo)
  }

  /**
   * An entry keeps its thread's sender, subject and reply target, has stripped
   * summary and action texts and at most three well-formed replies, and is
   * blank when the response could not be parsed.
   */
  lemma EntryForSpec(thread: ThreadSummary, data: Payload)
    ensures var e := EntryFor(thread, data);
      && e.sender == thread.sender && e.subject == thread.subject && e.replyTo == thread.replyTo
      && IsStripped(e.summary) && IsStripped(e.action)
      && |e.replies| <= MaxReplies && (forall o :: o in e.replies ==> IsReplyOption(o))
      && (data == EmptyPayload ==> e.summary == [] && e.action == [] && e.replies == [])
  {
    NormalizedRepliesBound(data.replies);
  }

  /** The body of that loop for one thread: strip the texts, normalise the replies. */
  method BuildEntry(thread: ThreadSummary, data: Payload) returns (entry: DigestEntry)
    ensures entry == EntryFor(thread, data)
  {
    var summary := Strip(data.summary);
    var action := Strip(data.action);
    var replies := NormalizeReplies(data.replies);
    entry := DigestEntry(thread.sender, thread.subject, summary, action, replies, thread.replyTo);
  }

  /** The entry of one thread, built from the interpretation of its response. */
  function EntryOfResponse(respond: Summarizer, interpret: string -> Payload, thread: ThreadSummary): DigestEntry {
    EntryFor(thread, interpret(respond(thread)))
  }

  /**
   * The loop of `summarize_and_action` / `generate_digest_items`: one entry per
   * thread, in thread order, each from that thread's own response.
   */
  method DigestEntries(threads: seq<ThreadSummary>, respond: Summarizer, interpret: string -> Payload)
    returns (entries: seq<DigestEntry>)
    ensures |entries| == |threads|
    ensures forall i :: 0 <= i < |threads| ==> entries[i] == EntryOfResponse(respond, interpret, threads[i])
  {
    entries := [];
    for k := 0 to |threads|
      invariant |entries| == k
      invariant forall i :: 0 <= i < k ==> entries[i] == EntryOfResponse(respond, interpret, threads[i])
    {
      var entry := BuildEntry(threads[k], interpret(respond(threads[k])));
      entries := entries + [entry];
    }
  }

  /**
   * The subject a reply is sent with: `Re: ` is prepended unless the subject
   * already starts with `re:` in any case.
   */
  function SubjectReply(subject: string): (r: string)
    ensures StartsWith(Lower(r), "re:")
    ensures r == subject <==> StartsWith(Lower(subject), "re:")
    ensures r != subject ==> r == "Re: " + subject
  {
    if StartsWith(Lower(subject), "re:") then subject
    else
      assert Lower("Re: " + subject)[..3] == "re:";
      "Re: " + subject
  }

  /** A reply subject is a fixed point: replying to a reply adds no second prefix. */
  lemma SubjectReplyIdempotent(subject: string)
    ensures SubjectReply(SubjectReply(subject)) == SubjectReply(subject)
  {
  }

  function EscapeChar(c: char): string {
    if c == '<' then "&lt;" else if c == '>' then "&gt;" else [c]
  }

  /** Reference definition: each angle bracket becomes its entity, all else stays. */
  function EscapeEach(s: string): string {
    if s == [] then [] else EscapeChar(s[0]) + EscapeEach(s[1..])
  }

  /** `body.replace('<', '&lt;').replace('>', '&gt;')`. */
  function EscapeBody(s: string): (r: string)
    ensures '<' !in r && '>' !in r
  {
    ReplaceAll(ReplaceAll(s, '<', "&lt;"), '>', "&gt;")
  }

  lemma {:induction false} ReplaceAllAppend(a: string, b: string, c: char, rep: string)
    ensures ReplaceAll(a + b, c, rep) == ReplaceAll(a, c, rep) + ReplaceAll(b, c, rep)
  {
    if a == [] {
      assert a + b == b;
    } else {
      assert (a + b)[1..] == a[1..] + b;
      ReplaceAllAppend(a[1..], b, c, rep);
    }
  }

  /** The two chained replacements escape each character on its own. */
  lemma {:induction false} EscapeBodyIsEscapeEach(s: string)
    ensures EscapeBody(s) == EscapeEach(s)
  {
    if s != [] {
      var head := if s[0] == '<' then "&lt;" else [s[0]];
      assert ReplaceAll(s, '<', "&lt;") == head + ReplaceAll(s[1..], '<', "&lt;");
      ReplaceAllAppend(head, ReplaceAll(s[1..], '<', "&lt;"), '>', "&gt;");
      assert ReplaceAll(head, '>', "&gt;") == EscapeChar(s[0]);
      EscapeBodyIsEscapeEach(s[1..]);
    }
  }

  /** What the digest shows for one reply option: the button's link and label and the escaped body. */
  datatype ReplyButton = ReplyButton(href: string, labelText: string, visibleBody: string)

  /** `reply_link`: `#` when the thread has no reply target, else the compose link. */
  function ButtonLink(shape: LinkShape, e: DigestEntry, body: string): string {
    if e.replyTo == [] then "#" else Render(shape, e.replyTo, SubjectReply(e.subject), body)
  }

  /** The reply options of one entry as rendered, in order (none when it has no replies). */
  function ReplyButtons(shape: LinkShape, e: DigestEntry): seq<ReplyButton> {
    seq(|e.replies|, i requires 0 <= i < |e.replies| =>
      ReplyButton(ButtonLink(shape, e, e.replies[i].body), e.replies[i].labelText, EscapeBody(e.replies[i].body)))
  }

  /**
   * Each button keeps its option's label, shows the body with its angle
   * brackets escaped, and links to `#` exactly when the thread has no reply
   * target; otherwise its link reads back as the reply target, the reply
   * subject and the option's body.
   */
  lemma ReplyButtonsSpec(shape: LinkShape, e: DigestEntry, i: nat)
    requires WellFormed(shape) && i < |e.replies|
    ensures |ReplyButtons(shape, e)| == |e.replies|
    ensures ReplyButtons(shape, e)[i].labelText == e.replies[i].labelText
    ensures ReplyButtons(shape, e)[i].visibleBody == EscapeEach(e.replies[i].body)
    ensures ReplyButtons(shape, e)[i].href == "#" <==> e.replyTo == []
    ensures e.replyTo != [] ==>
      Parse(shape, ReplyButtons(shape, e)[i].href) == Some((e.replyTo, SubjectReply(e.subject), e.replies[i].body))
  {
    var body := e.replies[i].body;
    EscapeBodyIsEscapeEach(body);
    if e.replyTo != [] {
      var link := Render(shape, e.replyTo, SubjectReply(e.subject), body);
      RenderLength(shape, e.replyTo, SubjectReply(e.subject), body);
      assert |link| >= 2;
      RoundTrip(shape, e.replyTo, SubjectReply(e.subject), body);
    }
  }
}
