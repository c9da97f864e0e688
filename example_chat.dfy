/** The chat page of the example frontend
    (examples/xmtp-coinbase-agentkit/frontend/src/components/ChatInterface.tsx): how a
    message that embeds an SVG QR code is cut into the text before it, the SVG and the text
    after it, and the message list the page keeps. The server's answer and the clock are
    parameters. */
module ExampleChat {
  import opened Wrappers
  import opened Strings
  import opened Json
  import Decimal
  import Blockchain
  import RegexText

  // Showing a message

  /** What `MessageContent` shows: the text alone, or the QR code with the text the pattern
      captured before it (group 1) and after it (group 3). */
  datatype View =
    | Plain(text: string)
    | QrView(before: string, svg: string, after: string)
  {
    /** `match[1]?.trim()`, shown above the QR code. */
    function TextBefore(): string
      requires QrView?
    {
      Trim(before)
    }

    /** `match[3]?.trim()`, shown below it. */
    function TextAfter(): string
      requires QrView?
    {
      Trim(after)
    }

    /** The address the copy button offers: the first one in the text before the QR code. */
    function ContractAddress(): Option<string>
      requires QrView?
    {
      RegexText.FirstAddress(TextBefore())
    }
  }

  const SvgOpen := "<svg"
  const SvgClose := "</svg>"

  predicate IsBacktick(c: char) { c == '`' }

  /** `t` is what `` `{0,3}(?:svg)?\s* `` matches: up to three backticks, `svg` when `v` is 3,
      then white space. */
  predicate Lead(t: string, a: nat, v: nat) {
    a <= 3 && (v == 0 || v == 3) && a + v <= |t| &&
    (forall k :: 0 <= k < a ==> IsBacktick(t[k])) &&
    (v == 3 ==> t[a..a + 3] == "svg") &&
    (forall k :: a + v <= k < |t| ==> IsJsSpace(t[k]))
  }

  /** `t` is what `` \s*`{0,3} `` matches: white space, then up to three backticks. */
  predicate Trail(t: string, w: nat) {
    w <= |t| <= w + 3 &&
    (forall k :: 0 <= k < w ==> IsJsSpace(t[k])) &&
    (forall k :: w <= k < |t| ==> IsBacktick(t[k]))
  }

  function Min3(n: nat): nat { if n < 3 then n else 3 }

  /** Where the lazy group 1 ends when the SVG starts at `j`: before the white space, the
      `svg` and the (at most three) backticks that stand right before it. */
  function LeadStart(content: string, j: nat): (i: nat)
    requires j <= |content|
    ensures i <= j
  {
    var w := RegexText.RunBack(content[..j], IsJsSpace);
    var b := j - w;
    var v := if b >= 3 && content[b - 3..b] == "svg" then 3 else 0;
    b - v - Min3(RegexText.RunBack(content[..b - v], IsBacktick))
  }

  /** Where group 3 starts once the SVG has ended at `m`: after the white space and at most
      three backticks that follow. */
  function TrailEnd(content: string, m: nat): (e: nat)
    requires m <= |content|
    ensures m <= e <= |content|
  {
    var w := RegexText.Run(content[m..], IsJsSpace);
    m + w + Min3(RegexText.Run(content[m + w..], IsBacktick))
  }

  /** Where the SVG the pattern captures starts and where its closing tag starts: the first
      `<svg`, and the first `</svg>` after it. The text leading up to an SVG cannot hold a
      `<`, so no later `<svg` can start the capture. */
  function SvgBounds(content: string): (r: Option<(nat, nat)>)
    ensures r.Some? ==> r.value.0 + 4 <= r.value.1 && r.value.1 + 6 <= |content|
  {
    match IndexOfFrom(content, SvgOpen, 0)
    case None => None
    case Some(j) =>
      match IndexOfFrom(content, SvgClose, j + 4)
      case None => None
      case Some(k) => Some((j, k))
  }

  /** The bounds are the first `<svg` and the first `</svg>` at least four characters after
      it, and there are none exactly when no `</svg>` follows any `<svg` that way. */
  lemma SvgBoundsFirst(content: string)
    ensures var r := SvgBounds(content);
      (r.Some? ==> OccursAt(content, SvgOpen, r.value.0) && OccursAt(content, SvgClose, r.value.1) &&
                   (forall x :: 0 <= x < r.value.0 ==> !OccursAt(content, SvgOpen, x)) &&
                   (forall x :: r.value.0 + 4 <= x < r.value.1 ==> !OccursAt(content, SvgClose, x))) &&
      (r.None? <==> forall j, k :: OccursAt(content, SvgOpen, j) && OccursAt(content, SvgClose, k) ==> k < j + 4)
  {
    match IndexOfFrom(content, SvgOpen, 0)
    case None =>
    case Some(j) =>
      match IndexOfFrom(content, SvgClose, j + 4)
      case None =>
        forall j', k | OccursAt(content, SvgOpen, j') && OccursAt(content, SvgClose, k)
          ensures k < j' + 4
        {
          assert j <= j';
        }
      case Some(k) =>
  }

  /** `MessageContent({content})`: the pattern
      `` /^(.*?)`{0,3}(?:svg)?\s*(<svg[\s\S]*?<\/svg>)\s*`{0,3}(.*)$/s `` and what is shown
      for its match, or the text with its backticks removed when it does not match. */
  function MessageContent(content: string): View {
    match SvgBounds(content)
    case None => Plain(RemoveChar(content, '`'))
    case Some((j, k)) =>
      QrView(content[..LeadStart(content, j)], content[j..k + 6], content[TrailEnd(content, k + 6)..])
  }

  /** The QR code is shown exactly when some `</svg>` starts at least four characters after
      some `<svg`. Otherwise the content is shown with every backtick removed and every
      other character kept, in order. */
  lemma ShownWhenSvgCloses(content: string)
    ensures MessageContent(content).QrView? <==>
      exists j, k :: OccursAt(content, SvgOpen, j) && OccursAt(content, SvgClose, k) && j + 4 <= k
    ensures MessageContent(content).Plain? ==>
      var text := MessageContent(content).text;
      text == RemoveChar(content, '`') &&
      '`' !in text && forall x :: x != '`' ==> multiset(text)[x] == multiset(content)[x]
  {
    SvgBoundsFirst(content);
    RemoveCharKeepsOthers(content, '`');
  }

  /** The SVG starts at the first `<svg` of the content, begins with `<svg`, ends with
      `</svg>` and holds no other `</svg>`. */
  lemma SvgSegment(content: string)
    requires MessageContent(content).QrView?
    ensures var svg := MessageContent(content).svg;
      StartsWith(svg, SvgOpen) && EndsWith(svg, SvgClose) && |svg| >= 10 &&
      (forall x :: 0 <= x < |svg| - 6 ==> !OccursAt(svg, SvgClose, x)) &&
      exists j :: OccursAt(content, svg, j) && forall x :: 0 <= x < j ==> !OccursAt(content, SvgOpen, x)
  {
    SvgBoundsFirst(content);
    var j, k := QrViewCut(content);
    SvgSlice(content, j, k);
  }

  /** Where `MessageContent` cuts a content that shows the QR code. */
  lemma QrViewCut(content: string) returns (j: nat, k: nat)
    requires MessageContent(content).QrView?
    ensures SvgBounds(content) == Some((j, k)) && j + 4 <= k && k + 6 <= |content|
    ensures MessageContent(content) ==
      QrView(content[..LeadStart(content, j)], content[j..k + 6], content[TrailEnd(content, k + 6)..])
  {
    var b := SvgBounds(content).value;
    j, k := b.0, b.1;
  }

  lemma SvgSlice(content: string, j: nat, k: nat)
    requires OccursAt(content, SvgOpen, j) && OccursAt(content, SvgClose, k) && j + 4 <= k
    requires forall x :: j + 4 <= x < k ==> !OccursAt(content, SvgClose, x)
    ensures var svg := content[j..k + 6];
      StartsWith(svg, SvgOpen) && EndsWith(svg, SvgClose) && |svg| >= 10 &&
      (forall x :: 0 <= x < |svg| - 6 ==> !OccursAt(svg, SvgClose, x)) && OccursAt(content, svg, j)
  {
    var svg := content[j..k + 6];
    assert svg[..4] == content[j..j + 4];
    assert svg[|svg| - 6..] == content[k..k + 6];
    forall x | 0 <= x < |svg| - 6
      ensures !OccursAt(svg, SvgClose, x)
    {
      if x < 4 {
        assert svg[..4] == SvgOpen;
        assert svg[0] == '<' && svg[1] == 's' && svg[2] == 'v' && svg[3] == 'g';
        assert svg[x] != SvgClose[0] || svg[x + 1] != SvgClose[1];
        assert svg[x..x + 6][0] == svg[x] && svg[x..x + 6][1] == svg[x + 1];
      } else {
        assert svg[x..x + 6] == content[j + x..j + x + 6];
        assert !OccursAt(content, SvgClose, j + x);
      }
    }
  }

  /** The content is cut without loss: group 1, the lead-in the pattern skips, the SVG, the
      trail it skips, and group 3. */
  lemma ContentPartition(content: string)
    requires MessageContent(content).QrView?
    ensures var view := MessageContent(content);
      exists lead, trail, a, v, w ::
        content == view.before + lead + view.svg + trail + view.after && Lead(lead, a, v) && Trail(trail, w)
  {
    var j, k := QrViewCut(content);
    ViewPartition(content, MessageContent(content), LeadStart(content, j), j, k + 6, TrailEnd(content, k + 6));
  }

  lemma ViewPartition(content: string, view: View, i: nat, j: nat, m: nat, e: nat)
    requires i <= j <= m <= e <= |content|
    requires i == LeadStart(content, j) && e == TrailEnd(content, m)
    requires view == QrView(content[..i], content[j..m], content[e..])
    ensures exists lead, trail, a, v, w ::
      content == view.before + lead + view.svg + trail + view.after && Lead(lead, a, v) && Trail(trail, w)
  {
    var lead, a, v := LeadParts(content, j);
    var trail, w := TrailParts(content, m);
    Partitioned(content, i, j, m, e);
  }

  /** Five consecutive slices put back together give the text. */
  lemma Partitioned(content: string, i: nat, j: nat, m: nat, e: nat)
    requires i <= j <= m <= e <= |content|
    ensures content == content[..i] + content[i..j] + content[j..m] + content[m..e] + content[e..]
  {
  }

  /** The facts about a backward run, stated on the whole text. */
  lemma RunBackAt(content: string, c: nat, p: char -> bool)
    requires c <= |content|
    ensures var n := RegexText.RunBack(content[..c], p);
      n <= c && (forall k :: c - n <= k < c ==> p(content[k])) && (n < c ==> !p(content[c - n - 1]))
  {
    var n := RegexText.RunBack(content[..c], p);
    RegexText.RunBackFacts(content[..c], p);
    assert forall k :: c - n <= k < c ==> content[..c][k] == content[k];
    if n < c {
      assert content[..c][c - n - 1] == content[c - n - 1];
    }
  }

  /** The lead-in `LeadStart` skips has the shape the pattern allows. */
  lemma LeadParts(content: string, j: nat) returns (lead: string, a: nat, v: nat)
    requires j <= |content|
    ensures lead == content[LeadStart(content, j)..j] && Lead(lead, a, v)
  {
    lead := content[LeadStart(content, j)..j];
    var w := RegexText.RunBack(content[..j], IsJsSpace);
    var b := j - w;
    v := if b >= 3 && content[b - 3..b] == "svg" then 3 else 0;
    var t := RegexText.RunBack(content[..b - v], IsBacktick);
    a := Min3(t);
    var i := b - v - a;
    assert i == LeadStart(content, j);
    assert forall k :: i <= k < i + a ==> IsBacktick(content[k]) by {
      RunBackAt(content, b - v, IsBacktick);
    }
    assert forall k :: i + a + v <= k < j ==> IsJsSpace(content[k]) by {
      RunBackAt(content, j, IsJsSpace);
    }
    LeadShape(content, i, j, a, v);
  }

  lemma LeadShape(content: string, i: nat, j: nat, a: nat, v: nat)
    requires i + a + v <= j <= |content| && a <= 3 && (v == 0 || v == 3)
    requires forall k :: i <= k < i + a ==> IsBacktick(content[k])
    requires v == 3 ==> content[i + a..i + a + 3] == "svg"
    requires forall k :: i + a + v <= k < j ==> IsJsSpace(content[k])
    ensures Lead(content[i..j], a, v)
  {
    var lead := content[i..j];
    assert forall k :: 0 <= k < |lead| ==> lead[k] == content[i + k];
    if v == 3 {
      assert lead[a..a + 3] == content[i + a..i + a + 3];
    }
  }

  /** The trail `TrailEnd` skips has the shape the pattern allows. */
  lemma TrailParts(content: string, m: nat) returns (trail: string, w: nat)
    requires m <= |content|
    ensures trail == content[m..TrailEnd(content, m)] && Trail(trail, w)
  {
    w := RegexText.Run(content[m..], IsJsSpace);
    RegexText.RunFacts(content[m..], IsJsSpace);
    RegexText.RunFacts(content[m + w..], IsBacktick);
    trail := content[m..TrailEnd(content, m)];
    forall k | 0 <= k < w
      ensures IsJsSpace(trail[k])
    {
      assert trail[k] == content[m..][k];
    }
    forall k | w <= k < |trail|
      ensures IsBacktick(trail[k])
    {
      assert trail[k] == content[m + w..][k - w];
    }
  }

  /** Group 1 is lazy: no earlier end of it leaves a lead-in the pattern could match. */
  lemma LeadStartLeast(content: string, j: nat, i': nat, a': nat, v': nat)
    requires j <= |content| && i' <= j
    requires Lead(content[i'..j], a', v')
    ensures LeadStart(content, j) <= i'
  {
    LeadFacts(content, i', j, a', v');
    var p := i' + a' + v';
    // The white space of the lead-in lies within the run before `j`.
    RunBackCovers(content, j, p, IsJsSpace);
    if v' == 3 {
      assert content[p - 1] == content[i' + a'..p][2];
      RunBackStops(content, j, p, IsJsSpace);
      LeastAfterSvg(content, j, i', a');
    } else if a' > 0 {
      RunBackStops(content, j, p, IsJsSpace);
      LeastAfterBackticks(content, j, i', a');
    }
  }

  /** A backward run from `c` reaches back at least over a stretch of characters with `p`
      ending at `c`. */
  lemma RunBackCovers(content: string, c: nat, i: nat, p: char -> bool)
    requires i <= c <= |content|
    requires forall k :: i <= k < c ==> p(content[k])
    ensures c - RegexText.RunBack(content[..c], p) <= i
  {
    RunBackAt(content, c, p);
  }

  /** A backward run from `c` stops at a character without `p`. */
  lemma RunBackStops(content: string, c: nat, i: nat, p: char -> bool)
    requires 0 < i <= c <= |content| && !p(content[i - 1])
    requires forall k :: i <= k < c ==> p(content[k])
    ensures c - RegexText.RunBack(content[..c], p) == i
  {
    RunBackAt(content, c, p);
  }

  /** The lead-in ends with `svg` right before the white space: `LeadStart` takes the
      same `svg` and at least as many backticks. */
  lemma LeastAfterSvg(content: string, j: nat, i': nat, a': nat)
    requires j <= |content| && a' <= 3
    requires i' + a' + 3 == j - RegexText.RunBack(content[..j], IsJsSpace)
    requires forall k :: i' <= k < i' + a' ==> IsBacktick(content[k])
    requires content[i' + a'..i' + a' + 3] == "svg"
    ensures LeadStart(content, j) <= i'
  {
    RunBackCovers(content, i' + a', i', IsBacktick);
  }

  /** The lead-in is backticks alone right before the white space: `LeadStart` takes no
      `svg` and at least as many backticks. */
  lemma LeastAfterBackticks(content: string, j: nat, i': nat, a': nat)
    requires j <= |content| && 0 < a' <= 3
    requires i' + a' == j - RegexText.RunBack(content[..j], IsJsSpace)
    requires forall k :: i' <= k < i' + a' ==> IsBacktick(content[k])
    ensures LeadStart(content, j) <= i'
  {
    var b := i' + a';
    assert b >= 3 ==> content[b - 3..b][2] == content[b - 1];
    RunBackCovers(content, b, i', IsBacktick);
  }

  /** The lead-in's shape, stated on the whole text. */
  lemma LeadFacts(content: string, i: nat, j: nat, a: nat, v: nat)
    requires i <= j <= |content| && Lead(content[i..j], a, v)
    ensures i + a + v <= j && a <= 3 && (v == 0 || v == 3)
    ensures forall k :: i <= k < i + a ==> IsBacktick(content[k])
    ensures v == 3 ==> content[i + a..i + a + 3] == "svg"
    ensures forall k :: i + a + v <= k < j ==> IsJsSpace(content[k])
  {
    var lead := content[i..j];
    assert forall k :: i <= k < j ==> content[k] == lead[k - i];
    if v == 3 {
      assert content[i + a..i + a + 3] == lead[a..a + 3];
    }
  }

  /** The address offered for copying is a valid address taken from the text before the QR
      code (group 1), never from the text after it. */
  lemma AddressFromTextBefore(content: string)
    requires MessageContent(content).QrView?
    ensures var view := MessageContent(content); var address := view.ContractAddress();
      address.Some? ==> Blockchain.IsValidAddress(address.value) && Contains(view.TextBefore(), address.value) &&
                        Contains(view.before, address.value)
  {
    var view := MessageContent(content);
    var text := view.TextBefore();
    RegexText.FirstAddressLeftmost(text);
    if view.ContractAddress().Some? {
      var i: nat :| RegexText.AddressAt(text, i) == view.ContractAddress();
      assert OccursAt(text, view.ContractAddress().value, i);
      TrimContains(view.before, view.ContractAddress().value);
    }
  }

  // The message list

  datatype Sender = User | Agent

  /** The message types `'text' | 'transaction' | 'error'`. */
  datatype Kind = TextKind | Transaction | ErrorKind

  /** A message. The content is a JSON value: the agent's `data.response` may be anything,
      or missing. */
  datatype Message = Message(id: string, content: Option<Json>, sender: Sender, timestamp: nat, kind: Kind)

  const Greeting := "Hello! I'm your AI-powered crypto assistant. How can I help you today?"
  const ErrorText := "\U{00E2}\U{0152} An error occurred. Please try again."

  /** The agent's message for the answer `reply` read at `at`: `None` when the request fails,
      is refused or its body does not parse; reading `response` of a `null` body throws too. */
  function ReplyMessage(reply: Option<Json>, at: nat): Message {
    var id := Decimal.NatToString(at + 1);
    match reply
    case Some(data) =>
      if data == Null then Message(id, Some(String(ErrorText)), Agent, at, ErrorKind)
      else Message(id, Get(data, "response"), Agent, at, TextKind)
    case None => Message(id, Some(String(ErrorText)), Agent, at, ErrorKind)
  }

  /** Each answer is one agent message: the body's `response` when it parses to a value other
      than `null`, and otherwise the fixed error text typed as an error. */
  lemma ReplyOutcomes(reply: Option<Json>, at: nat)
    ensures var m := ReplyMessage(reply, at);
      m.sender == Agent && m.timestamp == at && m.id == Decimal.NatToString(at + 1) &&
      (m.kind == ErrorKind <==> reply.None? || reply.value == Null) &&
      (m.kind == ErrorKind ==> m.content == Some(String(ErrorText))) &&
      (m.kind != ErrorKind ==> reply.value.Object? ==> m.content == Lookup(reply.value.members, "response"))
  {
  }

  /** The body `sendMessage` posts; `JSON.stringify` leaves out a missing `userId`. */
  function RequestBody(message: string, userId: Option<string>): Json {
    Object([("message", String(message))] + (if userId.Some? then [("userId", String(userId.value))] else []))
  }

  /** The page's state: the messages shown, the text being typed, the loading flag. */
  class ExampleChatView {
    var messages: seq<Message>
    var inputMessage: string
    var isLoading: bool

    /** The page opens with the agent's greeting alone. */
    constructor(now: nat)
      ensures messages == [Message("1", Some(String(Greeting)), Agent, now, TextKind)]
      ensures inputMessage == "" && !isLoading
    {
      messages := [Message("1", Some(String(Greeting)), Agent, now, TextKind)];
      inputMessage := "";
      isLoading := false;
    }

    /** `sendMessage`: nothing happens on blank input or while a request is in flight.
        Otherwise the text as typed is added as the user's message and sent, the input is
        cleared, and exactly one agent message follows. */
    method SendMessage(userId: Option<string>, reply: Option<Json>, sentAt: nat, repliedAt: nat)
      returns (request: Option<Json>)
      modifies this
      ensures Trim(old(inputMessage)) == "" || old(isLoading) ==>
        request.None? && messages == old(messages) && inputMessage == old(inputMessage) && isLoading == old(isLoading)
      ensures !(Trim(old(inputMessage)) == "" || old(isLoading)) ==>
        request == Some(RequestBody(old(inputMessage), userId)) &&
        messages == old(messages) + [Message(Decimal.NatToString(sentAt), Some(String(old(inputMessage))), User, sentAt, TextKind),
                                     ReplyMessage(reply, repliedAt)] &&
        inputMessage == "" && !isLoading
    {
      if Trim(inputMessage) == "" || isLoading {
        return None;
      }
      var text := inputMessage;
      var earlier := messages;
      var userMessage := Message(Decimal.NatToString(sentAt), Some(String(text)), User, sentAt, TextKind);
      messages := messages + [userMessage];
      inputMessage := "";
      isLoading := true;
      request := Some(RequestBody(text, userId));
      messages := messages + [ReplyMessage(reply, repliedAt)];
      AppendTwo(earlier, userMessage, ReplyMessage(reply, repliedAt));
      isLoading := false;
    }
  }
}
