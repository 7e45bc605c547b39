/**
 * The Gmail side of the digest (`gmail.py`): of each fetched thread only the
 * messages at or after a cutoff are kept, a thread whose senders are all the
 * owner is skipped, the transcript follows the fetched order, the reply target
 * is the latest sender other than the owner, and the subject and sender come
 * from the first message of the whole thread. Reply links default to Gmail,
 * and a response is salvaged only from a non-empty brace span.
 *
 * The Gmail API calls are out of the model: its input is the list of threads
 * they returned, each a list of messages, and the cutoff in milliseconds.
 */
module GmailDigest {
  import opened Wrappers
  import opened Text
  import opened Sorting
  import opened UrlEncoding
  import opened ReplyLinks
  import opened Digest

  datatype Header = Header(name: string, value: string)

  /** A message fetched in `full` format: its `internalDate` in milliseconds, its headers and its snippet. */
  datatype GmailMessage = GmailMessage(internalDate: int, headers: seq<Header>, snippet: string)

  const FromHeader: string := "From"
  const SubjectHeader: string := "Subject"
  const UnknownFrom: string := "Unknown"
  const UnknownSender: string := "Unknown Sender"

  /** `next((h['value'] for h in headers if h['name'] == name), fallback)`. */
  function HeaderValue(headers: seq<Header>, name: string, fallback: string): string {
    if headers == [] then fallback
    else if headers[0].name == name then headers[0].value
    else HeaderValue(headers[1..], name, fallback)
  }

  /**
   * The value of the first header named `name`, at index `i`; the fallback
   * when no header has that name.
   */
  lemma {:induction false} HeaderValueSpec(headers: seq<Header>, name: string, fallback: string) returns (i: nat)
    ensures (forall j :: 0 <= j < |headers| ==> headers[j].name != name) ==> HeaderValue(headers, name, fallback) == fallback
    ensures (exists j :: 0 <= j < |headers| && headers[j].name == name) ==>
      i < |headers| && headers[i].name == name && HeaderValue(headers, name, fallback) == headers[i].value
      && forall j :: 0 <= j < i ==> headers[j].name != name
  {
    if headers == [] || headers[0].name == name {
      i := 0;
    } else {
      var k := HeaderValueSpec(headers[1..], name, fallback);
      i := k + 1;
      if exists j :: 0 <= j < |headers| && headers[j].name == name {
        var j :| 0 <= j < |headers| && headers[j].name == name;
        assert headers[1..][j - 1].name == name;
      }
      forall j | 0 <= j < |headers[1..]|
        ensures headers[1..][j] == headers[j + 1]
      {
      }
    }
  }

  /** The `From` header of a message, `Unknown` when it has none. */
  function FromOf(m: GmailMessage): string {
    HeaderValue(m.headers, FromHeader, UnknownFrom)
  }

  /** The sort key of `sorted(..., key=...)`. */
  function InternalDate(m: GmailMessage): int {
    m.internalDate
  }

  // ---------------------------------------------------------------------
  // Recent messages, transcript and the self-only test
  // ---------------------------------------------------------------------

  /** `[m for m in messages if int(m.get('internalDate', 0)) >= cutoff_ms]`. */
  function Recent(messages: seq<GmailMessage>, cutoff: int): (r: seq<GmailMessage>)
    ensures |r| <= |messages|
  {
    if messages == [] then []
    else
      var last := messages[|messages| - 1];
      Recent(messages[..|messages| - 1], cutoff) + (if last.internalDate >= cutoff then [last] else [])
  }

  /** A message is kept exactly when it is in the thread and not older than the cutoff. */
  lemma {:induction false} RecentMembers(messages: seq<GmailMessage>, cutoff: int, m: GmailMessage)
    ensures m in Recent(messages, cutoff) <==> m in messages && m.internalDate >= cutoff
  {
    if messages != [] {
      var init := messages[..|messages| - 1];
      RecentMembers(init, cutoff, m);
      assert messages == init + [messages[|messages| - 1]];
    }
  }

  /** A transcript line: the full `From` header, then the snippet. */
  function TranscriptLine(m: GmailMessage): string {
    FromOf(m) + Said + m.snippet
  }

  /** The transcript: one line per recent message, in the order the thread lists them. */
  function Transcript(recent: seq<GmailMessage>): seq<string> {
    MapSeq(TranscriptLine, recent)
  }

  /** `sender.lower().startswith(owner.lower())` for a full `From` header. */
  predicate OwnerPrefixed(from: string, owner: string) {
    StartsWith(Lower(from), Lower(owner))
  }

  /** The `all(...)` test: every sender, lower-cased, starts with the lower-cased owner address. */
  predicate SelfOnly(recent: seq<GmailMessage>, owner: string) {
    forall m :: m in recent ==> OwnerPrefixed(FromOf(m), owner)
  }

  /**
   * The test looks at the whole header, not at the address in it: when the
   * owner address is set (and does not itself open with a quote), a `From`
   * header that opens with a quoted display name, as in `"Me" <me@example.com>`,
   * never counts as the owner, whatever address it carries.
   */
  lemma QuotedNameIsNotOwner(rest: string, owner: string)
    requires owner != [] && owner[0] != '"'
    ensures !OwnerPrefixed("\"" + rest, owner)
  {
    assert Lower(owner)[0] == LowerChar(owner[0]);
    assert Lower("\"" + rest)[0] == '"';
  }

  /** With no owner address every sender passes the test, since every string starts with "". */
  lemma SelfOnlyWithoutOwner(recent: seq<GmailMessage>)
    ensures SelfOnly(recent, [])
  {
  }

  // ---------------------------------------------------------------------
  // Reply target
  // ---------------------------------------------------------------------

  /** An address the reply may go to: non-empty and, when the owner is known, not the owner's in any case. */
  predicate IsOther(addr: string, owner: string) {
    addr != [] && (owner == [] || Lower(addr) != Lower(owner))
  }

  /** The address of message `m`'s sender. */
  function SenderAddress(parse: AddressParser, m: GmailMessage): string {
    parse(FromOf(m))
  }

  /** Among the first `n` sorted messages, the address of the latest one from someone other than the owner, or "". */
  function LastOtherUpTo(parse: AddressParser, owner: string, sorted: seq<GmailMessage>, n: nat): string
    requires n <= |sorted|
  {
    if n == 0 then []
    else
      var addr := SenderAddress(parse, sorted[n - 1]);
      if IsOther(addr, owner) then addr else LastOtherUpTo(parse, owner, sorted, n - 1)
  }

  /** `LastOtherUpTo` is "" exactly when none of those messages is from someone other than the owner. */
  lemma {:induction false} LastOtherUpToEmpty(parse: AddressParser, owner: string, sorted: seq<GmailMessage>, n: nat)
    requires n <= |sorted|
    ensures LastOtherUpTo(parse, owner, sorted, n) == [] <==>
      forall j :: 0 <= j < n ==> !IsOther(SenderAddress(parse, sorted[j]), owner)
  {
    if n > 0 {
      LastOtherUpToEmpty(parse, owner, sorted, n - 1);
    }
  }

  /** A non-empty `LastOtherUpTo` is the address of message `i`, from someone else, after which no message is. */
  lemma {:induction false} LastOtherUpToLatest(parse: AddressParser, owner: string, sorted: seq<GmailMessage>, n: nat)
    returns (i: nat)
    requires n <= |sorted| && LastOtherUpTo(parse, owner, sorted, n) != []
    ensures i < n && LastOtherUpTo(parse, owner, sorted, n) == SenderAddress(parse, sorted[i])
    ensures IsOther(SenderAddress(parse, sorted[i]), owner)
    ensures forall j :: i < j < n ==> !IsOther(SenderAddress(parse, sorted[j]), owner)
  {
    if IsOther(SenderAddress(parse, sorted[n - 1]), owner) {
      i := n - 1;
    } else {
      i := LastOtherUpToLatest(parse, owner, sorted, n - 1);
    }
  }

  /**
   * `last_non_self_email or parseaddr(<From of the latest message>)[1]`: the
   * latest sender other than the owner, else the latest sender.
   */
  function ReplyTarget(parse: AddressParser, recent: seq<GmailMessage>, owner: string): string
    requires recent != []
  {
    var sorted := SortByKey(InternalDate, recent);
    var found := LastOtherUpTo(parse, owner, sorted, |sorted|);
    if found != [] then found else SenderAddress(parse, sorted[|sorted| - 1])
  }

  /**
   * When some recent message is from someone other than the owner, the reply
   * target is the address of such a message, `source`, and no message
   * received after it is from someone else.
   */
  lemma ReplyTargetOther(parse: AddressParser, recent: seq<GmailMessage>, owner: string) returns (source: GmailMessage)
    requires exists m :: m in recent && IsOther(SenderAddress(parse, m), owner)
    ensures source in recent && ReplyTarget(parse, recent, owner) == SenderAddress(parse, source)
    ensures IsOther(ReplyTarget(parse, recent, owner), owner)
    ensures forall m :: m in recent && m.internalDate > source.internalDate ==> !IsOther(SenderAddress(parse, m), owner)
  {
    var sorted := SortByKey(InternalDate, recent);
    var w :| w in recent && IsOther(SenderAddress(parse, w), owner);
    var kw := SortByKeyIndex(InternalDate, recent, w);
    LastOtherUpToEmpty(parse, owner, sorted, |sorted|);
    var i := LastOtherUpToLatest(parse, owner, sorted, |sorted|);
    source := sorted[i];
    SortByKeyPermutes(InternalDate, recent);
    assert source in multiset(sorted);
    SortByKeySorted(InternalDate, recent);
    forall m | m in recent && m.internalDate > source.internalDate
      ensures !IsOther(SenderAddress(parse, m), owner)
    {
      var k := SortByKeyIndex(InternalDate, recent, m);
      SortedLater(InternalDate, sorted, i, k);
    }
  }

  /** When every recent message is from the owner, the reply target is the address of a latest message. */
  lemma ReplyTargetFallback(parse: AddressParser, recent: seq<GmailMessage>, owner: string) returns (source: GmailMessage)
    requires recent != []
    requires forall m :: m in recent ==> !IsOther(SenderAddress(parse, m), owner)
    ensures source in recent && ReplyTarget(parse, recent, owner) == SenderAddress(parse, source)
    ensures forall m :: m in recent ==> m.internalDate <= source.internalDate
  {
    var sorted := SortByKey(InternalDate, recent);
    var last := |sorted| - 1;
    forall j | 0 <= j < |sorted|
      ensures !IsOther(SenderAddress(parse, sorted[j]), owner)
    {
      SortByKeyPermutes(InternalDate, recent);
      assert sorted[j] in multiset(sorted);
    }
    LastOtherUpToEmpty(parse, owner, sorted, |sorted|);
    source := sorted[last];
    SortByKeyPermutes(InternalDate, recent);
    assert source in multiset(sorted);
    SortByKeySorted(InternalDate, recent);
    forall m | m in recent
      ensures m.internalDate <= source.internalDate
    {
      var k := SortByKeyIndex(InternalDate, recent, m);
      if m.internalDate > source.internalDate {
        SortedLater(InternalDate, sorted, last, k);
      }
    }
  }

  /** `sorted(...)` and the reverse loop with its `break`, then the fallback. */
  method FindReplyTarget(parse: AddressParser, recent: seq<GmailMessage>, owner: string) returns (replyTo: string)
    requires recent != []
    ensures replyTo == ReplyTarget(parse, recent, owner)
  {
    var sorted := SortByKey(InternalDate, recent);
    var lastNonSelf: string := [];
    var i := |sorted|;
    while i > 0
      invariant 0 <= i <= |sorted|
      invariant lastNonSelf == []
      invariant LastOtherUpTo(parse, owner, sorted, |sorted|) == LastOtherUpTo(parse, owner, sorted, i)
    {
      var addr := parse(HeaderValue(sorted[i - 1].headers, FromHeader, UnknownFrom));
      if addr != [] && (owner == [] || Lower(addr) != Lower(owner)) {
        lastNonSelf := addr;
        assert lastNonSelf == LastOtherUpTo(parse, owner, sorted, |sorted|);
        break;
      }
      i := i - 1;
    }
    if lastNonSelf != [] {
      replyTo := lastNonSelf;
    } else {
      replyTo := parse(HeaderValue(sorted[|sorted| - 1].headers, FromHeader, UnknownFrom));
    }
  }

  // ---------------------------------------------------------------------
  // Thread summaries
  // ---------------------------------------------------------------------

  /**
   * What the loop body makes of one thread: nothing when no message is recent
   * or every recent sender is the owner; otherwise the subject and sender of
   * the thread's first message, the recent messages' lines and the reply
   * target among them.
   */
  function ThreadOf(parse: AddressParser, owner: string, cutoff: int, messages: seq<GmailMessage>): Option<ThreadSummary> {
    var recent := Recent(messages, cutoff);
    if recent == [] || SelfOnly(recent, owner) then None
    else
      var first := messages[0].headers;
      Some(ThreadSummary(HeaderValue(first, SubjectHeader, NoSubject), HeaderValue(first, FromHeader, UnknownSender),
        Transcript(recent), ReplyTarget(parse, recent, owner)))
  }

  /**
   * A thread yields a summary exactly when some message is recent and some
   * recent sender does not start with the owner's address; then the owner's
   * address is set, the transcript has one line per recent message, in the
   * fetched order, naming its `From` header and its snippet, and the subject
   * and sender are the first message's headers, with their fallbacks.
   */
  lemma ThreadOfSpec(parse: AddressParser, owner: string, cutoff: int, messages: seq<GmailMessage>)
    ensures var recent := Recent(messages, cutoff);
      ThreadOf(parse, owner, cutoff, messages).None? <==> recent == [] || SelfOnly(recent, owner)
    ensures var recent := Recent(messages, cutoff);
      ThreadOf(parse, owner, cutoff, messages).Some? ==>
        var t := ThreadOf(parse, owner, cutoff, messages).value;
        && owner != [] && messages != []
        && (exists m :: m in recent && !OwnerPrefixed(FromOf(m), owner))
        && |t.transcript| == |recent|
        && (forall i :: 0 <= i < |recent| ==> t.transcript[i] == FromOf(recent[i]) + Said + recent[i].snippet)
        && t.subject == HeaderValue(messages[0].headers, SubjectHeader, NoSubject)
        && t.sender == HeaderValue(messages[0].headers, FromHeader, UnknownSender)
        && t.replyTo == ReplyTarget(parse, recent, owner)
  {
    var recent := Recent(messages, cutoff);
    if recent != [] && !SelfOnly(recent, owner) {
      SelfOnlyWithoutOwner(recent);
    }
  }

  /** With no owner address set every thread passes the self-only test, so no thread is summarised. */
  lemma BlankOwnerSkipsEveryThread(parse: AddressParser, cutoff: int, messages: seq<GmailMessage>)
    ensures ThreadOf(parse, [], cutoff, messages) == None
  {
    SelfOnlyWithoutOwner(Recent(messages, cutoff));
  }

  /** The comprehension `[m for m in messages if ...]` as a loop. */
  method RecentMessages(messages: seq<GmailMessage>, cutoff: int) returns (recent: seq<GmailMessage>)
    ensures recent == Recent(messages, cutoff)
  {
    recent := [];
    for k := 0 to |messages|
      invariant recent == Recent(messages[..k], cutoff)
    {
      assert messages[..k + 1][..k] == messages[..k];
      if messages[k].internalDate >= cutoff {
        recent := recent + [messages[k]];
      }
    }
    assert messages[..|messages|] == messages;
  }

  /**
   * The loop over the recent messages: the set of their `From` headers and
   * the conversation lines.
   */
  method CollectSenders(recent: seq<GmailMessage>) returns (senders: set<string>, conversation: seq<string>)
    ensures senders == set m | m in recent :: FromOf(m)
    ensures conversation == Transcript(recent)
  {
    senders := {};
    conversation := [];
    for k := 0 to |recent|
      invariant senders == set m | m in recent[..k] :: FromOf(m)
      invariant conversation == Transcript(recent[..k])
    {
      assert recent[..k + 1] == recent[..k] + [recent[k]];
      assert recent[..k + 1][..k] == recent[..k];
      assert (set m | m in recent[..k + 1] :: FromOf(m)) == (set m | m in recent[..k] :: FromOf(m)) + {FromOf(recent[k])};
      var fromFull := HeaderValue(recent[k].headers, FromHeader, UnknownFrom);
      senders := senders + {fromFull};
      conversation := conversation + [fromFull + Said + recent[k].snippet];
    }
    assert recent[..|recent|] == recent;
  }

  /** The `all(...)` test over the set of senders is the test over the recent messages. */
  lemma SendersSelfOnly(recent: seq<GmailMessage>, owner: string)
    ensures (forall s :: s in (set m | m in recent :: FromOf(m)) ==> OwnerPrefixed(s, owner))
      <==> SelfOnly(recent, owner)
  {
    var senders := set m | m in recent :: FromOf(m);
    if SelfOnly(recent, owner) {
      forall s | s in senders
        ensures OwnerPrefixed(s, owner)
      {
        var m :| m in recent && FromOf(m) == s;
      }
    }
    if forall s :: s in senders ==> OwnerPrefixed(s, owner) {
      forall m | m in recent
        ensures OwnerPrefixed(FromOf(m), owner)
      {
        assert FromOf(m) in senders;
      }
    }
  }

  /** The loop body of `fetch_email_threads` for one thread. */
  method ThreadFor(parse: AddressParser, owner: string, cutoff: int, messages: seq<GmailMessage>)
    returns (thread: Option<ThreadSummary>)
    ensures thread == ThreadOf(parse, owner, cutoff, messages)
  {
    var recent := RecentMessages(messages, cutoff);
    if recent == [] {
      return None;
    }
    var senders, conversation := CollectSenders(recent);
    SendersSelfOnly(recent, owner);
    if forall s :: s in senders ==> OwnerPrefixed(s, owner) {
      return None;
    }
    var replyTo := FindReplyTarget(parse, recent, owner);
    var first := messages[0].headers;
    var subject := HeaderValue(first, SubjectHeader, NoSubject);
    var sender := HeaderValue(first, FromHeader, UnknownSender);
    thread := Some(ThreadSummary(subject, sender, conversation, replyTo));
  }

  /** The summary each fetched thread yields. */
  function ThreadFn(parse: AddressParser, owner: string, cutoff: int): seq<GmailMessage> -> Option<ThreadSummary> {
    messages => ThreadOf(parse, owner, cutoff, messages)
  }

  /** `fetch_email_threads` after the API calls: the summaries of the fetched threads, in their order. */
  function FetchedThreads(parse: AddressParser, owner: string, cutoff: int, threads: seq<seq<GmailMessage>>): seq<ThreadSummary> {
    FilterMap(ThreadFn(parse, owner, cutoff), threads)
  }

  /**
   * Every summary comes from one fetched thread and has at least one
   * transcript line, and there are no more summaries than threads.
   */
  lemma FetchedThreadsSound(parse: AddressParser, owner: string, cutoff: int, threads: seq<seq<GmailMessage>>, t: ThreadSummary)
    requires t in FetchedThreads(parse, owner, cutoff, threads)
    ensures exists i :: 0 <= i < |threads| && ThreadOf(parse, owner, cutoff, threads[i]) == Some(t)
    ensures t.transcript != [] && owner != []
    ensures |FetchedThreads(parse, owner, cutoff, threads)| <= |threads|
  {
    var f := ThreadFn(parse, owner, cutoff);
    FilterMapSound(f, threads, t);
    FilterMapBound(f, threads);
    var i :| 0 <= i < |threads| && f(threads[i]) == Some(t);
    ThreadOfSpec(parse, owner, cutoff, threads[i]);
  }

  /** Every thread that yields a summary has it in the result. */
  lemma FetchedThreadsComplete(parse: AddressParser, owner: string, cutoff: int, threads: seq<seq<GmailMessage>>, i: nat)
    requires i < |threads| && ThreadOf(parse, owner, cutoff, threads[i]).Some?
    ensures ThreadOf(parse, owner, cutoff, threads[i]).value in FetchedThreads(parse, owner, cutoff, threads)
  {
    FilterMapComplete(ThreadFn(parse, owner, cutoff), threads, i);
  }

  /** With no owner address set the digest has no threads at all. */
  lemma {:induction false} BlankOwnerFetchesNothing(parse: AddressParser, cutoff: int, threads: seq<seq<GmailMessage>>)
    ensures FetchedThreads(parse, [], cutoff, threads) == []
  {
    if threads != [] {
      BlankOwnerFetchesNothing(parse, cutoff, threads[..|threads| - 1]);
      BlankOwnerSkipsEveryThread(parse, cutoff, threads[|threads| - 1]);
    }
  }

  /** The per-thread loop of `fetch_email_threads`. */
  method FetchThreads(parse: AddressParser, owner: string, cutoff: int, threads: seq<seq<GmailMessage>>)
    returns (summaries: seq<ThreadSummary>)
    ensures summaries == FetchedThreads(parse, owner, cutoff, threads)
  {
    ghost var f := ThreadFn(parse, owner, cutoff);
    summaries := [];
    for k := 0 to |threads|
      invariant summaries == FilterMap(f, threads[..k])
    {
      FilterMapSnoc(f, threads, k);
      var thread := ThreadFor(parse, owner, cutoff, threads[k]);
      if thread.Some? {
        summaries := summaries + [thread.value];
      }
    }
    assert threads[..|threads|] == threads;
  }

  // ---------------------------------------------------------------------
  // Reply links
  // ---------------------------------------------------------------------

  /** `os.getenv("REPLY_LINK_MODE", "gmail")`, and the mode used when it is set but empty. */
  const DefaultLinkMode: string := "gmail"

  function LinkModeSetting(env: Option<string>): string {
    match env
    case Some(value) => value
    case None => DefaultLinkMode
  }

  /** Outlook on the web for work accounts. */
  const OfficeCompose: LinkShape :=
    LinkShape("https://outlook.office.com/mail/deeplink/compose?to=", "&subject=", "&body=", QuotePlus)

  /** A `mailto:` link, encoded with `quote_plus` like every other link of this script. */
  const MailtoLink: LinkShape := LinkShape("mailto:", "?subject=", "&body=", QuotePlus)

  /** `(REPLY_LINK_MODE or "gmail").lower()` and the choice of link it makes. */
  function LinkShapeFor(setting: string): LinkShape {
    var mode := Lower(if setting == [] then DefaultLinkMode else setting);
    if mode == "gmail" then GmailCompose
    else if IsOfficeMode(mode) then OfficeCompose
    else if IsLiveMode(mode) then OutlookLiveCompose
    else MailtoLink
  }

  /** `build_reply_link`. */
  function BuildReplyLink(setting: string, to: string, subject: string, body: string): string {
    Render(LinkShapeFor(setting), to, subject, body)
  }

  lemma LinkShapeForWellFormed(setting: string)
    ensures WellFormed(LinkShapeFor(setting))
  {
    SharedShapesWellFormed();
    KeySeparates(OfficeCompose.subjectKey);
    KeySeparates(OfficeCompose.bodyKey);
    KeySeparates(MailtoLink.subjectKey);
    KeySeparates(MailtoLink.bodyKey);
  }

  /** Whatever the mode, the link carries the recipient, subject and body, and they can be read back exactly. */
  lemma BuildReplyLinkRoundTrip(setting: string, to: string, subject: string, body: string)
    ensures Parse(LinkShapeFor(setting), BuildReplyLink(setting, to, subject, body)) == Some((to, subject, body))
  {
    LinkShapeForWellFormed(setting);
    RoundTrip(LinkShapeFor(setting), to, subject, body);
  }

  /** The mode is matched without regard to the case of its ASCII letters. */
  lemma LinkShapeForIgnoresCase(setting: string)
    ensures LinkShapeFor(Lower(setting)) == LinkShapeFor(setting)
  {
    LowerIdempotent(setting);
  }

  lemma DefaultLinkModeIsLower()
    ensures IsLowerCase(DefaultLinkMode) && DefaultLinkMode != []
  {
  }

  /** Unset or set to "", the mode opens Gmail's compose window. */
  lemma DefaultModeIsGmail()
    ensures LinkShapeFor(LinkModeSetting(None)) == GmailCompose
    ensures LinkShapeFor([]) == GmailCompose
  {
    DefaultLinkModeIsLower();
    LowerOfLowerCase(DefaultLinkMode);
  }

  /** Unlike `quote`, the `mailto:` link of this script writes a space in the body as `+`. */
  lemma MailtoSpaceIsPlus(to: string, subject: string)
    ensures Render(MailtoLink, to, subject, " ") == Render(MailtoLink, to, subject, []) + "+"
  {
    QuotePlusSpace();
  }

  // ---------------------------------------------------------------------
  // Model responses
  // ---------------------------------------------------------------------

  /**
   * The response handling of `generate_digest_items`: parse the text; failing
   * that, when its first `{` comes before its last `}`, parse the text from
   * the one through the other.
   */
  function ParseResponse(parse: JsonParser, raw: string): ParseOutcome {
    match parse(raw)
    case Some(data) => Parsed(data)
    case None =>
      var s := Find(raw, '{');
      var e := RFind(raw, '}');
      if s != -1 && e != -1 && e > s then
        match parse(BraceSpan(raw))
        case Some(data) => Salvaged(data)
        case None => Unparsed
      else Unparsed
  }

  /**
   * A response that parses is used as is; otherwise it is salvaged exactly
   * when a `{` comes before a later `}` and the span from the first `{`
   * through the last `}` parses. That span is never empty.
   */
  lemma ParseResponseSpec(parse: JsonParser, raw: string)
    ensures parse(raw).Some? ==> ParseResponse(parse, raw) == Parsed(parse(raw).value)
    ensures ParseResponse(parse, raw).Salvaged? <==>
      parse(raw).None? && '{' in raw && '}' in raw && Find(raw, '{') < RFind(raw, '}') && parse(BraceSpan(raw)).Some?
    ensures ParseResponse(parse, raw).Salvaged? ==>
      var span := BraceSpan(raw);
      && |span| >= 2 && span[0] == '{' && span[|span| - 1] == '}'
      && parse(span) == Some(ParseResponse(parse, raw).data)
  {
  }

  /** When the last `}` comes before the first `{`, nothing is parsed a second time. */
  lemma ParseResponseReversedBraces(parse: JsonParser, raw: string)
    requires parse(raw).None? && '{' in raw && '}' in raw && RFind(raw, '}') < Find(raw, '{')
    ensures ParseResponse(parse, raw) == Unparsed
  {
  }

  /** How `generate_digest_items` reads one response. */
  function InterpretResponse(parse: JsonParser): string -> Payload {
    raw => DataOf(ParseResponse(parse, raw))
  }

  /**
   * `generate_digest_items`: one entry per thread, in thread order, built from
   * the parsed (or salvaged, or empty) response to that thread.
   */
  method GenerateDigestItems(threads: seq<ThreadSummary>, respond: Summarizer, parse: JsonParser)
    returns (entries: seq<DigestEntry>)
    ensures |entries| == |threads|
    ensures forall i :: 0 <= i < |threads| ==>
      entries[i] == EntryFor(threads[i], DataOf(ParseResponse(parse, respond(threads[i]))))
  {
    entries := DigestEntries(threads, respond, InterpretResponse(parse));
  }
}
