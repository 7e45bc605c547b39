/**
 * The Microsoft Graph side of the digest (`main.py`): recent inbox messages
 * are grouped by conversation, each conversation is sorted by arrival time
 * and turned into a thread summary (transcript, subject, sender display and
 * reply target), the digest's own threads are skipped, reply links are built
 * for the configured mail client, and model responses are parsed with a
 * salvage step that re-parses the text between the outer braces.
 *
 * `parseaddr` is a parameter (`AddressParser`), and so is `json.loads`
 * (`JsonParser`); the Graph query itself is out of the model, whose input is
 * the list of messages it returned.
 */
module GraphDigest {
  import opened Wrappers
  import opened Text
  import opened Sorting
  import opened UrlEncoding
  import opened ReplyLinks
  import opened Digest

  /**
   * A `from`, `sender` or `replyTo` entry. `NoParty` is a missing, null or
   * empty object; a party without `emailAddress`, `name` or `address` has ""
   * in their place.
   */
  datatype Party = NoParty | Party(name: string, address: string)

  /** The fields of a Graph message the digest selects. `received` orders like `receivedDateTime`. */
  datatype GraphMessage = GraphMessage(
    conversationId: string,
    received: int,
    subject: string,
    from: Party,
    sender: Party,
    replyTo: seq<Party>,
    bodyPreview: string)

  /** `"name <address>"`, the text `_addr_only` and the sender display are built from. */
  function NameAddr(name: string, address: string): string {
    name + AngleOpen + address + AngleClose
  }

  const AngleOpen: string := " <"
  const AngleClose: string := ">"

  /**
   * `_addr_only`: the lower-cased address found in `"name <address>"`, and ""
   * for a missing party.
   */
  function AddrOnly(parse: AddressParser, p: Party): (r: string)
    ensures IsLowerCase(r)
    ensures p.NoParty? ==> r == []
    ensures p.Party? ==> r == Lower(parse(NameAddr(p.name, p.address)))
  {
    if p.NoParty? then []
    else
      var text := NameAddr(p.name, p.address);
      LowerIsLowerCase(parse(text));
      Lower(parse(text))
  }

  // ---------------------------------------------------------------------
  // Grouping by conversation
  // ---------------------------------------------------------------------

  /** The conversation ids in order of first appearance; messages without one are skipped. */
  function ConversationIds(msgs: seq<GraphMessage>): seq<string> {
    if msgs == [] then []
    else
      var ids := ConversationIds(msgs[..|msgs| - 1]);
      var cid := msgs[|msgs| - 1].conversationId;
      if cid == [] || cid in ids then ids else ids + [cid]
  }

  /** The messages of conversation `cid`, in the order they were fetched. */
  function Conversation(msgs: seq<GraphMessage>, cid: string): seq<GraphMessage> {
    if msgs == [] then []
    else
      var last := msgs[|msgs| - 1];
      Conversation(msgs[..|msgs| - 1], cid) + (if last.conversationId == cid then [last] else [])
  }

  predicate Distinct(ids: seq<string>) {
    forall i, j :: 0 <= i < j < |ids| ==> ids[i] != ids[j]
  }

  /** No id appears twice. */
  lemma {:induction false} ConversationIdsDistinct(msgs: seq<GraphMessage>)
    ensures Distinct(ConversationIds(msgs))
  {
    if msgs != [] {
      var init := msgs[..|msgs| - 1];
      ConversationIdsDistinct(init);
      var ids := ConversationIds(init);
      var cid := msgs[|msgs| - 1].conversationId;
      if cid != [] && cid !in ids {
        var ext := ids + [cid];
        forall i, j | 0 <= i < j < |ext|
          ensures ext[i] != ext[j]
        {
          assert ext[i] == ids[i] && ids[i] in ids;
          if j < |ids| {
            assert ext[j] == ids[j];
          }
        }
        assert ConversationIds(msgs) == ext;
      }
    }
  }

  /** The ids are exactly the non-empty ids carried by the messages. */
  lemma {:induction false} ConversationIdsMember(msgs: seq<GraphMessage>, cid: string)
    ensures cid in ConversationIds(msgs) <==> cid != [] && exists m :: m in msgs && m.conversationId == cid
  {
    if msgs != [] {
      var init := msgs[..|msgs| - 1];
      ConversationIdsMember(init, cid);
      assert msgs == init + [msgs[|msgs| - 1]];
      if exists m :: m in msgs && m.conversationId == cid {
        var m :| m in msgs && m.conversationId == cid;
        assert m in init || m == msgs[|msgs| - 1];
      }
    }
  }

  /** A message is in the group of `cid` exactly when it was fetched and carries `cid`. */
  lemma {:induction false} ConversationMembers(msgs: seq<GraphMessage>, cid: string, m: GraphMessage)
    ensures m in Conversation(msgs, cid) <==> m in msgs && m.conversationId == cid
  {
    if msgs != [] {
      var init := msgs[..|msgs| - 1];
      ConversationMembers(init, cid, m);
      assert msgs == init + [msgs[|msgs| - 1]];
    }
  }

  /** An id that was never seen has no messages yet. */
  lemma {:induction false} ConversationOfUnseen(msgs: seq<GraphMessage>, cid: string)
    requires cid != [] && cid !in ConversationIds(msgs)
    ensures Conversation(msgs, cid) == []
  {
    if msgs != [] {
      var init := msgs[..|msgs| - 1];
      ConversationIdsMember(msgs, cid);
      assert msgs[|msgs| - 1] in msgs;
      ConversationIdsMember(init, cid);
      ConversationOfUnseen(init, cid);
    }
  }

  /** Every group that is created holds at least one message. */
  lemma ConversationNonEmpty(msgs: seq<GraphMessage>, cid: string)
    requires cid in ConversationIds(msgs)
    ensures Conversation(msgs, cid) != []
  {
    ConversationIdsMember(msgs, cid);
    var m :| m in msgs && m.conversationId == cid;
    ConversationMembers(msgs, cid, m);
  }

  /**
   * The `conv_groups` loop: a dictionary from conversation id to its messages,
   * with its keys in insertion order.
   */
  method GroupByConversation(msgs: seq<GraphMessage>) returns (ids: seq<string>, groups: map<string, seq<GraphMessage>>)
    ensures ids == ConversationIds(msgs)
    ensures forall cid :: cid in groups <==> cid in ids
    ensures forall cid :: cid in groups ==> groups[cid] == Conversation(msgs, cid)
  {
    ids := [];
    groups := map[];
    for k := 0 to |msgs|
      invariant ids == ConversationIds(msgs[..k])
      invariant [] !in ids
      invariant forall cid :: cid in groups <==> cid in ids
      invariant forall cid :: cid in groups ==> groups[cid] == Conversation(msgs[..k], cid)
    {
      var m := msgs[k];
      assert msgs[..k + 1][..k] == msgs[..k];
      assert forall c :: (Conversation(msgs[..k + 1], c) ==
        Conversation(msgs[..k], c) + (if m.conversationId == c then [m] else []));
      var cid := m.conversationId;
      if cid != [] {
        if cid !in groups {
          ConversationOfUnseen(msgs[..k], cid);
          ids := ids + [cid];
          groups := groups[cid := []];
        }
        groups := groups[cid := groups[cid] + [m]];
      }
    }
    assert msgs[..|msgs|] == msgs;
  }

  // ---------------------------------------------------------------------
  // One conversation
  // ---------------------------------------------------------------------

  /** The sort key of `msgs.sort(key=...)`. */
  function ReceivedAt(m: GraphMessage): int {
    m.received
  }

  const UnknownAuthor: string := "unknown"

  /** Who a transcript line names: the sender's address, or `unknown` when it has none. */
  function Author(parse: AddressParser, m: GraphMessage): (r: string)
    ensures r != [] && IsLowerCase(r)
    ensures AddrOnly(parse, m.from) != [] ==> r == AddrOnly(parse, m.from)
    ensures AddrOnly(parse, m.from) == [] ==> r == UnknownAuthor
  {
    var addr := AddrOnly(parse, m.from);
    if addr == [] then UnknownAuthor else addr
  }

  /** One line of the transcript: who said it, then the stripped preview. */
  function TranscriptLine(parse: AddressParser, m: GraphMessage): string {
    Author(parse, m) + Said + Strip(m.bodyPreview)
  }

  /** The line of each message. */
  function LineOf(parse: AddressParser): GraphMessage -> string {
    m => TranscriptLine(parse, m)
  }

  /** The transcript of a conversation: one line per message, in the order given. */
  function Transcript(parse: AddressParser, msgs: seq<GraphMessage>): seq<string> {
    MapSeq(LineOf(parse), msgs)
  }

  /** The transcript loop: one line per message, in the order given. */
  method BuildTranscript(parse: AddressParser, msgs: seq<GraphMessage>) returns (lines: seq<string>)
    ensures lines == Transcript(parse, msgs)
  {
    lines := [];
    for k := 0 to |msgs|
      invariant lines == Transcript(parse, msgs[..k])
    {
      assert msgs[..k + 1][..k] == msgs[..k];
      assert Transcript(parse, msgs[..k + 1]) == lines + [TranscriptLine(parse, msgs[k])];
      var addr := AddrOnly(parse, msgs[k].from);
      lines := lines + [(if addr == [] then UnknownAuthor else addr) + Said + Strip(msgs[k].bodyPreview)];
    }
    assert msgs[..|msgs|] == msgs;
  }

  /** The parties tried for a reply, in turn: the first `replyTo` entry if any, then `from`, then `sender`. */
  function Candidates(m: GraphMessage): seq<Party> {
    (if m.replyTo == [] then [] else [m.replyTo[0]]) + [m.from, m.sender]
  }

  /** The first non-empty address among `ps`, or "". */
  function FirstAddress(parse: AddressParser, ps: seq<Party>): (r: string)
    ensures IsLowerCase(r)
  {
    if ps == [] then []
    else
      var addr := AddrOnly(parse, ps[0]);
      if addr != [] then addr else FirstAddress(parse, ps[1..])
  }

  /**
   * `FirstAddress` is "" only when no party has an address, and otherwise is
   * the address of party `i`, the first one that has any.
   */
  lemma {:induction false} FirstAddressSpec(parse: AddressParser, ps: seq<Party>) returns (i: nat)
    ensures FirstAddress(parse, ps) == [] <==> forall j :: 0 <= j < |ps| ==> AddrOnly(parse, ps[j]) == []
    ensures FirstAddress(parse, ps) != [] ==>
      i < |ps| && FirstAddress(parse, ps) == AddrOnly(parse, ps[i])
      && forall j :: 0 <= j < i ==> AddrOnly(parse, ps[j]) == []
  {
    if ps == [] {
      i := 0;
    } else if AddrOnly(parse, ps[0]) != [] {
      i := 0;
    } else {
      var k := FirstAddressSpec(parse, ps[1..]);
      i := k + 1;
      forall j | 0 <= j < |ps| && j != 0
        ensures AddrOnly(parse, ps[j]) == AddrOnly(parse, ps[1..][j - 1])
      {
      }
    }
  }

  /** The address message `m` offers for a reply, or "". */
  function MessageAddress(parse: AddressParser, m: GraphMessage): string {
    FirstAddress(parse, Candidates(m))
  }

  /** `MessageAddress` as a function value, so the reverse scan below can stay generic. */
  function Offer(parse: AddressParser): GraphMessage -> string {
    m => MessageAddress(parse, m)
  }

  /** Scanning `xs[..n]` from the back, the first non-empty value `offer` gives, or "". */
  function LastOffered<T>(offer: T -> string, xs: seq<T>, n: nat): string
    requires n <= |xs|
  {
    if n == 0 then []
    else if offer(xs[n - 1]) != [] then offer(xs[n - 1])
    else LastOffered(offer, xs, n - 1)
  }

  lemma {:induction false} LastOfferedEmpty<T>(offer: T -> string, xs: seq<T>, n: nat)
    requires n <= |xs|
    ensures LastOffered(offer, xs, n) == [] <==> forall j :: 0 <= j < n ==> offer(xs[j]) == []
  {
    if n > 0 {
      LastOfferedEmpty(offer, xs, n - 1);
    }
  }

  lemma {:induction false} LastOfferedLatest<T>(offer: T -> string, xs: seq<T>, n: nat) returns (i: nat)
    requires n <= |xs| && LastOffered(offer, xs, n) != []
    ensures i < n && LastOffered(offer, xs, n) == offer(xs[i])
    ensures forall j :: i < j < n ==> offer(xs[j]) == []
  {
    if offer(xs[n - 1]) != [] {
      i := n - 1;
    } else {
      i := LastOfferedLatest(offer, xs, n - 1);
    }
  }

  /** The reply address found among the first `n` messages, scanning from message `n - 1` back. */
  function ReplyTargetUpTo(parse: AddressParser, msgs: seq<GraphMessage>, n: nat): string
    requires n <= |msgs|
  {
    LastOffered(Offer(parse), msgs, n)
  }

  /** The reply address: scanning from the newest message back, the first message that offers one decides. */
  function ReplyTarget(parse: AddressParser, msgs: seq<GraphMessage>): string {
    ReplyTargetUpTo(parse, msgs, |msgs|)
  }

  /** The reply target is "" exactly when no message offers an address. */
  lemma ReplyTargetEmpty(parse: AddressParser, msgs: seq<GraphMessage>)
    ensures ReplyTarget(parse, msgs) == [] <==> forall j :: 0 <= j < |msgs| ==> MessageAddress(parse, msgs[j]) == []
  {
    LastOfferedEmpty(Offer(parse), msgs, |msgs|);
  }

  /** A non-empty reply target comes from message `i`, and no later message offers an address. */
  lemma ReplyTargetLatest(parse: AddressParser, msgs: seq<GraphMessage>) returns (i: nat)
    requires ReplyTarget(parse, msgs) != []
    ensures i < |msgs| && ReplyTarget(parse, msgs) == MessageAddress(parse, msgs[i])
    ensures forall j :: i < j < |msgs| ==> MessageAddress(parse, msgs[j]) == []
  {
    i := LastOfferedLatest(Offer(parse), msgs, |msgs|);
  }

  /** The reply target is lower-case, like every address `_addr_only` returns. */
  lemma ReplyTargetLowerCase(parse: AddressParser, msgs: seq<GraphMessage>)
    ensures IsLowerCase(ReplyTarget(parse, msgs))
  {
    if ReplyTarget(parse, msgs) != [] {
      var i := ReplyTargetLatest(parse, msgs);
    }
  }

  /** The nested `for m in reversed(msgs)` / `for cand in candidates` search with its two `break`s. */
  method FindReplyTarget(parse: AddressParser, msgs: seq<GraphMessage>) returns (replyTo: string)
    ensures replyTo == ReplyTarget(parse, msgs)
  {
    replyTo := [];
    var i := |msgs|;
    while i > 0
      invariant 0 <= i <= |msgs|
      invariant replyTo == []
      invariant ReplyTarget(parse, msgs) == ReplyTargetUpTo(parse, msgs, i)
    {
      var candidates := Candidates(msgs[i - 1]);
      var j := 0;
      while j < |candidates|
        invariant 0 <= j <= |candidates|
        invariant replyTo == []
        invariant FirstAddress(parse, candidates) == FirstAddress(parse, candidates[j..])
      {
        var addr := AddrOnly(parse, candidates[j]);
        if addr != [] {
          replyTo := addr;
          break;
        }
        assert candidates[j..][1..] == candidates[j + 1..];
        j := j + 1;
      }
      if replyTo != [] {
        assert replyTo == ReplyTarget(parse, msgs);
        break;
      }
      i := i - 1;
    }
  }

  // ---------------------------------------------------------------------
  // Thread summaries
  // ---------------------------------------------------------------------

  /** The subject line that marks one of the digest's own emails. */
  const DigestSubjectPrefix: string := "\U{1F4EC} Daily Email Digest \U{2013}"

  /** `(first.get('subject') or 'No Subject').strip()`. */
  function ThreadSubject(first: GraphMessage): (r: string)
    ensures IsStripped(r)
    ensures first.subject == [] ==> r == NoSubject
    ensures first.subject != [] ==> r == Strip(first.subject)
  {
    if first.subject == [] then NoSubjectIsStripped(); NoSubject else Strip(first.subject)
  }

  lemma NoSubjectIsStripped()
    ensures IsStripped(NoSubject) && Strip(NoSubject) == NoSubject
  {
    StripOfStripped(NoSubject);
  }

  /** `f"{name} <{address}>".strip()` for the first message's `from`, with "" for whatever is missing. */
  function SenderDisplay(first: GraphMessage): (r: string)
    ensures IsStripped(r)
    ensures first.from.Party? ==> r == Strip(NameAddr(first.from.name, first.from.address))
    ensures first.from.NoParty? ==> r == Strip(NameAddr([], []))
  {
    match first.from
    case NoParty => Strip(NameAddr([], []))
    case Party(name, address) => Strip(NameAddr(name, address))
  }

  /**
   * What the loop body makes of one conversation: its messages in arrival
   * order give the transcript and the reply target, the earliest one gives
   * the subject and the sender, and a conversation with no lines or with a
   * digest's subject gives nothing.
   */
  function ThreadOf(parse: AddressParser, group: seq<GraphMessage>): Option<ThreadSummary> {
    var msgs := SortByKey(ReceivedAt, group);
    if msgs == [] then None
    else
      var subject := ThreadSubject(msgs[0]);
      if StartsWith(subject, DigestSubjectPrefix) then None
      else Some(ThreadSummary(subject, SenderDisplay(msgs[0]), Transcript(parse, msgs), ReplyTarget(parse, msgs)))
  }

  /**
   * A conversation yields a thread exactly when it has messages and its
   * earliest subject is not a digest's; the thread's transcript has one line
   * per message, in arrival order (a stable sort of the group), its subject
   * and sender come from a message no other message precedes, and its reply
   * target is lower-case.
   */
  lemma ThreadOfSpec(parse: AddressParser, group: seq<GraphMessage>)
    ensures var msgs := SortByKey(ReceivedAt, group);
      ThreadOf(parse, group).None? <==>
        group == [] || StartsWith(ThreadSubject(msgs[0]), DigestSubjectPrefix)
    ensures var msgs := SortByKey(ReceivedAt, group);
      ThreadOf(parse, group).Some? ==>
        var t := ThreadOf(parse, group).value;
        && SortedBy(ReceivedAt, msgs) && multiset(msgs) == multiset(group)
        && t.transcript == Transcript(parse, msgs) && |t.transcript| == |group|
        && t.replyTo == ReplyTarget(parse, msgs) && IsLowerCase(t.replyTo)
        && msgs[0] in group && (forall m :: m in group ==> msgs[0].received <= m.received)
        && t.subject == ThreadSubject(msgs[0]) && !StartsWith(t.subject, DigestSubjectPrefix)
        && t.sender == SenderDisplay(msgs[0])
  {
    var msgs := SortByKey(ReceivedAt, group);
    if msgs != [] {
      SortByKeySorted(ReceivedAt, group);
      SortByKeyPermutes(ReceivedAt, group);
      ReplyTargetLowerCase(parse, msgs);
      assert msgs[0] in multiset(msgs);
      forall m | m in group
        ensures msgs[0].received <= m.received
      {
        assert m in multiset(msgs);
        var k :| 0 <= k < |msgs| && msgs[k] == m;
        if k > 0 {
          assert ReceivedAt(msgs[0]) <= ReceivedAt(msgs[k]);
        }
      }
    }
  }

  /** The loop body for one conversation: sort it in place, collect its lines, find its reply target. */
  method ThreadFor(parse: AddressParser, group: seq<GraphMessage>) returns (thread: Option<ThreadSummary>)
    ensures thread == ThreadOf(parse, group)
  {
    var a := new GraphMessage[|group|](k requires 0 <= k < |group| => group[k]);
    assert a[..] == group;
    SortInPlace(a, ReceivedAt);
    var msgs := a[..];
    var lines := BuildTranscript(parse, msgs);
    if lines == [] {
      return None;
    }
    var replyTo := FindReplyTarget(parse, msgs);
    var first := msgs[0];
    var subject := ThreadSubject(first);
    if StartsWith(subject, DigestSubjectPrefix) {
      return None;
    }
    thread := Some(ThreadSummary(subject, SenderDisplay(first), lines, replyTo));
  }

  /** The thread each conversation id yields. */
  function ConversationThread(parse: AddressParser, msgs: seq<GraphMessage>): string -> Option<ThreadSummary> {
    cid => ThreadOf(parse, Conversation(msgs, cid))
  }

  /** `fetch_email_threads` after the query: the threads of the conversations, in order of first appearance. */
  function FetchedThreads(parse: AddressParser, msgs: seq<GraphMessage>): seq<ThreadSummary> {
    FilterMap(ConversationThread(parse, msgs), ConversationIds(msgs))
  }

  /**
   * Every fetched thread comes from one conversation of the input, has a
   * non-empty transcript and a lower-case reply target, and is not one of
   * the digest's own emails.
   */
  lemma FetchedThreadsSound(parse: AddressParser, msgs: seq<GraphMessage>, t: ThreadSummary)
    requires t in FetchedThreads(parse, msgs)
    ensures exists cid :: cid in ConversationIds(msgs) && ThreadOf(parse, Conversation(msgs, cid)) == Some(t)
    ensures t.transcript != [] && IsLowerCase(t.replyTo) && !StartsWith(t.subject, DigestSubjectPrefix)
  {
    var ids := ConversationIds(msgs);
    FilterMapSound(ConversationThread(parse, msgs), ids, t);
    var i :| 0 <= i < |ids| && ConversationThread(parse, msgs)(ids[i]) == Some(t);
    var group := Conversation(msgs, ids[i]);
    assert ThreadOf(parse, group) == Some(t);
    ThreadOfSpec(parse, group);
    ConversationNonEmpty(msgs, ids[i]);
  }

  /** Every conversation that yields a thread has it in the result, and there are no more threads than conversations. */
  lemma FetchedThreadsComplete(parse: AddressParser, msgs: seq<GraphMessage>, cid: string)
    requires cid in ConversationIds(msgs) && ThreadOf(parse, Conversation(msgs, cid)).Some?
    ensures ThreadOf(parse, Conversation(msgs, cid)).value in FetchedThreads(parse, msgs)
    ensures |FetchedThreads(parse, msgs)| <= |ConversationIds(msgs)|
  {
    var ids := ConversationIds(msgs);
    var i :| 0 <= i < |ids| && ids[i] == cid;
    FilterMapComplete(ConversationThread(parse, msgs), ids, i);
    FilterMapBound(ConversationThread(parse, msgs), ids);
  }

  /** The grouping and per-conversation loops of `fetch_email_threads`. */
  method FetchThreads(parse: AddressParser, msgs: seq<GraphMessage>) returns (threads: seq<ThreadSummary>)
    ensures threads == FetchedThreads(parse, msgs)
  {
    var ids, groups := GroupByConversation(msgs);
    ghost var f := ConversationThread(parse, msgs);
    threads := [];
    for k := 0 to |ids|
      invariant threads == FilterMap(f, ids[..k])
    {
      FilterMapSnoc(f, ids, k);
      var thread := ThreadFor(parse, groups[ids[k]]);
      if thread.Some? {
        threads := threads + [thread.value];
      }
    }
    assert ids[..|ids|] == ids;
  }

  // ---------------------------------------------------------------------
  // Reply links
  // ---------------------------------------------------------------------

  /** `os.getenv("REPLY_LINK_MODE", "outlook_office")`. */
  const DefaultLinkMode: string := "outlook_office"

  /** The mode used when the variable is set but empty. */
  const FallbackLinkMode: string := "mailto"

  function LinkModeSetting(env: Option<string>): string {
    match env
    case Some(value) => value
    case None => DefaultLinkMode
  }

  /** Outlook on the web for work accounts, composing inline. */
  const OfficeCompose: LinkShape :=
    LinkShape("https://outlook.office.com/mail/0/deeplink/compose?popoutv2=0&to=", "&subject=", "&body=", QuotePlus)

  /** A `mailto:` link, percent-encoded with `quote` so that spaces never turn into `+`. */
  const MailtoLink: LinkShape := LinkShape("mailto:", "?subject=", "&body=", Quote)

  /** `(REPLY_LINK_MODE or "mailto").lower()` and the choice of link it makes. */
  function LinkShapeFor(setting: string): LinkShape {
    var mode := Lower(if setting == [] then FallbackLinkMode else setting);
    if mode == "gmail" then GmailCompose
    else if IsOfficeMode(mode) then OfficeCompose
    else if IsLiveMode(mode) then OutlookLiveCompose
    else MailtoLink
  }

  /** `build_reply_link`. */
  function BuildReplyLink(setting: string, to: string, subject: string, body: string): string {
    Render(LinkShapeFor(setting), to, subject, body)
  }

  lemma LinkShapeForWellFormed(setting: string)
    ensures WellFormed(LinkShapeFor(setting))
  {
    SharedShapesWellFormed();
    KeySeparates(OfficeCompose.subjectKey);
    KeySeparates(OfficeCompose.bodyKey);
    KeySeparates(MailtoLink.subjectKey);
    KeySeparates(MailtoLink.bodyKey);
  }

  /** Whatever the mode, the link carries the recipient, subject and body, and they can be read back exactly. */
  lemma BuildReplyLinkRoundTrip(setting: string, to: string, subject: string, body: string)
    ensures Parse(LinkShapeFor(setting), BuildReplyLink(setting, to, subject, body)) == Some((to, subject, body))
  {
    LinkShapeForWellFormed(setting);
    RoundTrip(LinkShapeFor(setting), to, subject, body);
  }

  /** The mode is matched without regard to the case of its ASCII letters. */
  lemma LinkShapeForIgnoresCase(setting: string)
    ensures LinkShapeFor(Lower(setting)) == LinkShapeFor(setting)
  {
    LowerIdempotent(setting);
  }

  /** With the variable unset the links open Outlook on the web. */
  lemma DefaultModeIsOffice()
    ensures LinkShapeFor(LinkModeSetting(None)) == OfficeCompose
  {
    DefaultLinkModeIsLower();
    LowerOfLowerCase(DefaultLinkMode);
    assert Lower(DefaultLinkMode) == DefaultLinkMode;
    assert IsOfficeMode(DefaultLinkMode);
  }

  lemma DefaultLinkModeIsLower()
    ensures IsLowerCase(DefaultLinkMode) && DefaultLinkMode != []
  {
  }

  /** With the variable set to "" the links are `mailto:` links. */
  lemma EmptyModeIsMailto()
    ensures LinkShapeFor([]) == MailtoLink
  {
    LowerOfLowerCase(FallbackLinkMode);
  }

  /** A `mailto:` link contains no `+` at all: spaces are written `%20`. */
  lemma MailtoLinkHasNoPlus(to: string, subject: string, body: string)
    ensures '+' !in Render(MailtoLink, to, subject, body)
  {
    QuoteEmitsNoPlus(to);
    QuoteEmitsNoPlus(subject);
    QuoteEmitsNoPlus(body);
    MailtoKeysHaveNoPlus();
  }

  lemma MailtoKeysHaveNoPlus()
    ensures '+' !in MailtoLink.lead && '+' !in MailtoLink.subjectKey && '+' !in MailtoLink.bodyKey
  {
  }

  // ---------------------------------------------------------------------
  // Model responses
  // ---------------------------------------------------------------------

  /**
   * The response handling of `summarize_and_action`: parse the text; failing
   * that, when it holds a `{` and a `}`, parse the text from the first `{`
   * through the last `}`.
   */
  function ParseResponse(parse: JsonParser, raw: string): ParseOutcome {
    match parse(raw)
    case Some(data) => Parsed(data)
    case None =>
      if Find(raw, '{') != -1 && RFind(raw, '}') != -1 then
        match parse(BraceSpan(raw))
        case Some(data) => Salvaged(data)
        case None => Unparsed
      else Unparsed
  }

  /**
   * A response that parses is used as is; otherwise it is salvaged exactly
   * when it holds both braces and the span between them parses.
   */
  lemma ParseResponseSpec(parse: JsonParser, raw: string)
    ensures parse(raw).Some? ==> ParseResponse(parse, raw) == Parsed(parse(raw).value)
    ensures ParseResponse(parse, raw).Salvaged? <==>
      parse(raw).None? && '{' in raw && '}' in raw && parse(BraceSpan(raw)).Some?
    ensures ParseResponse(parse, raw).Salvaged? ==>
      '{' in raw && '}' in raw && parse(BraceSpan(raw)) == Some(ParseResponse(parse, raw).data)
  {
  }

  /**
   * When the last `}` comes before the first `{`, the salvage step parses the
   * empty string: the span is not checked to be non-empty.
   */
  lemma ParseResponseReversedBraces(parse: JsonParser, raw: string)
    requires parse(raw).None? && '{' in raw && '}' in raw && RFind(raw, '}') < Find(raw, '{')
    ensures ParseResponse(parse, raw) == if parse([]).Some? then Salvaged(parse([]).value) else Unparsed
  {
  }

  /** How `summarize_and_action` reads one response. */
  function InterpretResponse(parse: JsonParser): string -> Payload {
    raw => DataOf(ParseResponse(parse, raw))
  }

  /**
   * `summarize_and_action`: one entry per thread, in thread order, built from
   * the parsed (or salvaged, or empty) response to that thread.
   */
  method SummarizeAndAction(threads: seq<ThreadSummary>, respond: Summarizer, parse: JsonParser)
    returns (entries: seq<DigestEntry>)
    ensures |entries| == |threads|
    ensures forall i :: 0 <= i < |threads| ==>
      entries[i] == EntryFor(threads[i], DataOf(ParseResponse(parse, respond(threads[i]))))
  {
    entries := DigestEntries(threads, respond, InterpretResponse(parse));
  }
}
