/** A UDP tracker: its address taken apart, and the connect and announce exchanges of BEP 15
    with their retries. */
module Trackers {
  import opened Bytes
  import opened Linkedlists
  import opened StringUtils

  // ---------- The address ----------

  /** The text an address stands for. */
  function AddressText(address: CString): CString {
    CStr(UrlDecoded(address))
  }

  /** What the program needs of an address: a protocol, a host after two slashes and a port,
      each short enough for the buffer it is copied through. */
  predicate AddressOk(address: CString) {
    var ps := Pieces(AddressText(address));
    PiecesFit(AddressText(address)) && |ps| >= 3 && |ps[1]| >= 2
  }

  function Host(address: CString): seq<Byte>
    requires AddressOk(address)
  {
    Pieces(AddressText(address))[1][2..]
  }

  function Port(address: CString): seq<Byte>
    requires AddressOk(address)
  {
    Pieces(AddressText(address))[2]
  }

  lemma PartsNulFree(address: CString)
    requires AddressOk(address)
    ensures NulFree(Host(address)) && NulFree(Port(address))
  {
    hide Pieces, UrlDecoded, CStr;
    var text := AddressText(address);
    PiecesHaveNoColon(text);
    var host := Pieces(text)[1];
    assert forall k | 2 <= k < |host| :: host[k] in host;
  }

  /** The text "udp" */
  const UDP: seq<Byte> := [117, 100, 112]
  /** The text "//" */
  const SLASHES: seq<Byte> := [47, 47]

  function AddressFor(host: seq<Byte>, port: seq<Byte>): seq<Byte> {
    UDP + [COLON] + (SLASHES + host) + [COLON] + port
  }

  lemma PiecesOfAddress(host: seq<Byte>, port: seq<Byte>)
    requires COLON !in host && COLON !in port
    ensures Pieces(AddressFor(host, port)) == [UDP, SLASHES + host, port]
  {
    hide Pieces;
    var ps := [UDP, SLASHES + host, port];
    assert ps[..2][..1] == [UDP] && ps[..2] == [UDP, SLASHES + host];
    assert JoinedBy(ps[..2], [COLON]) == UDP + [COLON] + (SLASHES + host);
    assert JoinedBy(ps, [COLON]) == AddressFor(host, port);
    PiecesOfJoin(ps);
  }

  /** An encoded address gives its host and port back. */
  lemma AddressRoundTrip(host: CString, port: CString)
    requires COLON !in host && COLON !in port
    requires |host| <= 253 && |port| <= 255
    ensures NulFree(UrlEncoded(AddressFor(host, port)))
    ensures var address := UrlEncoded(AddressFor(host, port));
            AddressOk(address) && Host(address) == host && Port(address) == port
  {
    hide Pieces, UrlDecoded, UrlEncoded, CStr;
    var text := AddressFor(host, port);
    UrlEncodedSafe(text);
    UrlRoundTrip(text);
    CStrTerminated(text, []);
    PiecesOfAddress(host, port);
    assert (SLASHES + host)[2..] == host;
  }

  // ---------- What the world answers ----------

  /** What comes back for a request; a receive that fails is a timeout. */
  datatype Reply = Timeout | Answer(action: int, transactionId: int, connectionId: int)

  /** One try: whether the socket connects, what rand() returns and what the tracker replies. */
  datatype Input = Input(socketOk: bool, draw: nat, reply: Reply)

  datatype Event =
    | ConnectSent(transactionId: int)
    | AnnounceSent(connectionId: int, transactionId: int, infoHash: CString)
    | Received(reply: Reply)

  const MAX_ATTEMPTS: int := 5

  function TransactionId(input: Input): int {
    input.draw % 1000000
  }

  /** The id is the draw's remainder on division by a million. */
  lemma TransactionIdLaw(input: Input)
    ensures 0 <= TransactionId(input) < 1000000
    ensures exists q: nat :: input.draw == 1000000 * q + TransactionId(input)
  {
    assert input.draw == 1000000 * (input.draw / 1000000) + TransactionId(input);
  }

  predicate TimesOut(input: Input) {
    input.socketOk && input.reply.Timeout?
  }

  /** The answer that belongs to a request of the given kind. */
  predicate Answers(input: Input, action: int) {
    && input.reply.Answer?
    && input.reply.action == action
    && input.reply.transactionId == TransactionId(input)
  }

  predicate Accepts(input: Input) {
    input.socketOk && Answers(input, 0)
  }

  // ---------- What a call does ----------

  datatype Session = Session(
    connected: bool,
    attempts: int,
    connectionId: int,
    transactionId: int,
    used: nat,
    history: seq<Event>)

  function ConnectExchange(input: Input): seq<Event> {
    if input.socketOk then [ConnectSent(TransactionId(input)), Received(input.reply)] else []
  }

  function ConnectTrace(inputs: nat -> Input, from: nat, n: nat): seq<Event> {
    if n == 0 then []
    else ConnectTrace(inputs, from, n - 1) + ConnectExchange(inputs(from + n - 1))
  }

  function AnnounceExchange(input: Input, id: int, infoHash: CString): seq<Event> {
    [AnnounceSent(id, TransactionId(input), infoHash), Received(input.reply)]
  }

  function AnnounceTrace(inputs: nat -> Input, from: nat, n: nat, id: int, infoHash: CString): seq<Event> {
    if n == 0 then []
    else AnnounceTrace(inputs, from, n - 1, id, infoHash)
         + AnnounceExchange(inputs(from + n - 1), id, infoHash)
  }

  /** The transaction id of the last request in a trace. */
  function LastSent(id: int, trace: seq<Event>): int {
    if trace == [] then id
    else match trace[|trace| - 1]
      case ConnectSent(transactionId) => transactionId
      case AnnounceSent(_, transactionId, _) => transactionId
      case Received(_) => LastSent(id, trace[..|trace| - 1])
  }

  /** A connect tries until something other than a timeout comes back or the attempts are used
      up; the last try decides, and the attempts start again at 0 either way. */
  ghost predicate ConnectSpec(inputs: nat -> Input, s: Session, t: Session, ok: bool) {
    var n := t.used - s.used;
    && 1 <= n <= MAX_ATTEMPTS + 1 - s.attempts
    && (forall k | s.used <= k < t.used - 1 :: TimesOut(inputs(k)))
    && var last := inputs(t.used - 1);
    && (TimesOut(last) ==> n == MAX_ATTEMPTS + 1 - s.attempts)
    && (ok <==> Accepts(last))
    && t.attempts == 0
    && t.connected == (s.connected || ok)
    && t.connectionId == (if ok then last.reply.connectionId else s.connectionId)
    && t.history == s.history + ConnectTrace(inputs, s.used, n)
    && t.transactionId == LastSent(s.transactionId, ConnectTrace(inputs, s.used, n))
  }

  /** An announce before any connect succeeded does nothing. Otherwise it tries in the same
      way, but a run of timeouts leaves the attempts used up, and only an unfitting answer to
      the first request makes it fail: what a retry returns is not looked at. */
  ghost predicate AnnounceSpec(inputs: nat -> Input, s: Session, t: Session, infoHash: CString, ok: bool) {
    if !s.connected then t == s && ok
    else
      var n := t.used - s.used;
      && 1 <= n <= MAX_ATTEMPTS + 1 - s.attempts
      && (forall k | s.used <= k < t.used - 1 :: inputs(k).reply.Timeout?)
      && var last := inputs(t.used - 1);
      && (last.reply.Timeout? ==> n == MAX_ATTEMPTS + 1 - s.attempts)
      && (ok <==> n > 1 || last.reply.Timeout? || Answers(last, 1))
      && t.attempts == (if last.reply.Timeout? then MAX_ATTEMPTS else 0)
      && t.connected && t.connectionId == s.connectionId
      && t.history == s.history + AnnounceTrace(inputs, s.used, n, s.connectionId, infoHash)
      && t.transactionId == TransactionId(last)
  }

  lemma {:induction false} ConnectTraceFront(inputs: nat -> Input, from: nat, n: nat)
    ensures ConnectTrace(inputs, from, n + 1) ==
            ConnectExchange(inputs(from)) + ConnectTrace(inputs, from + 1, n)
  {
    if n == 0 {
      assert ConnectTrace(inputs, from, 0) == [];
    } else {
      ConnectTraceFront(inputs, from, n - 1);
    }
  }

  lemma {:induction false} AnnounceTraceFront(inputs: nat -> Input, from: nat, n: nat,
                                              id: int, infoHash: CString)
    ensures AnnounceTrace(inputs, from, n + 1, id, infoHash) ==
            AnnounceExchange(inputs(from), id, infoHash) + AnnounceTrace(inputs, from + 1, n, id, infoHash)
  {
    if n == 0 {
      assert AnnounceTrace(inputs, from, 0, id, infoHash) == [];
    } else {
      AnnounceTraceFront(inputs, from, n - 1, id, infoHash);
    }
  }

  lemma {:induction false} LastSentConcat(id: int, a: seq<Event>, b: seq<Event>)
    ensures LastSent(id, a + b) == LastSent(LastSent(id, a), b)
  {
    if b == [] {
      assert a + b == a;
    } else {
      assert (a + b)[..|a + b| - 1] == a + b[..|b| - 1];
      LastSentConcat(id, a, b[..|b| - 1]);
    }
  }

  lemma LastSentExchange(id: int, input: Input)
    ensures LastSent(id, ConnectExchange(input)) ==
            if input.socketOk then TransactionId(input) else id
  {
    if input.socketOk {
      assert ConnectExchange(input)[..1] == [ConnectSent(TransactionId(input))];
    }
  }

  /** A connect that times out goes on as a connect with one attempt more. */
  lemma ConnectRetried(inputs: nat -> Input, s: Session, u: Session, t: Session, ok: bool)
    requires TimesOut(inputs(s.used)) && 0 <= s.attempts < MAX_ATTEMPTS
    requires u == s.(attempts := s.attempts + 1, used := s.used + 1,
                     transactionId := TransactionId(inputs(s.used)),
                     history := s.history + ConnectExchange(inputs(s.used)))
    requires ConnectSpec(inputs, u, t, ok)
    ensures ConnectSpec(inputs, s, t, ok)
  {
    hide ConnectTrace, ConnectExchange, LastSent;
    var n := t.used - u.used;
    var first, rest := ConnectExchange(inputs(s.used)), ConnectTrace(inputs, s.used + 1, n);
    ConnectTraceFront(inputs, s.used, n);
    LastSentConcat(s.transactionId, first, rest);
    LastSentExchange(s.transactionId, inputs(s.used));
    assert s.history + first + rest == s.history + (first + rest);
  }

  lemma ConnectDecided(inputs: nat -> Input, s: Session, t: Session, ok: bool)
    requires 0 <= s.attempts <= MAX_ATTEMPTS
    requires var input := inputs(s.used);
             && (TimesOut(input) ==> s.attempts == MAX_ATTEMPTS)
             && (ok <==> Accepts(input))
             && t == s.(attempts := 0, used := s.used + 1,
                        connected := s.connected || ok,
                        connectionId := if ok then input.reply.connectionId else s.connectionId,
                        transactionId :=
                          if input.socketOk then TransactionId(input) else s.transactionId,
                        history := s.history + ConnectExchange(input))
    ensures ConnectSpec(inputs, s, t, ok)
  {
    hide ConnectTrace, ConnectExchange, LastSent;
    ConnectTraceFront(inputs, s.used, 0);
    NoTrace(inputs, s.used + 1);
    LastSentExchange(s.transactionId, inputs(s.used));
    assert ConnectExchange(inputs(s.used)) + [] == ConnectExchange(inputs(s.used));
  }

  lemma NoTrace(inputs: nat -> Input, from: nat)
    ensures ConnectTrace(inputs, from, 0) == []
    ensures forall id, infoHash :: AnnounceTrace(inputs, from, 0, id, infoHash) == []
  {
  }

  lemma AnnounceRetried(inputs: nat -> Input, s: Session, u: Session, t: Session, infoHash: CString, ok: bool)
    requires inputs(s.used).reply.Timeout? && 0 <= s.attempts < MAX_ATTEMPTS && s.connected
    requires u == s.(attempts := s.attempts + 1, used := s.used + 1,
                     transactionId := TransactionId(inputs(s.used)),
                     history := s.history + AnnounceExchange(inputs(s.used), s.connectionId, infoHash))
    requires AnnounceSpec(inputs, u, t, infoHash, ok)
    ensures AnnounceSpec(inputs, s, t, infoHash, true)
  {
    hide AnnounceTrace, AnnounceExchange;
    var n := t.used - u.used;
    AnnounceTraceFront(inputs, s.used, n, s.connectionId, infoHash);
  }

  lemma NotConnected(inputs: nat -> Input, s: Session, infoHash: CString)
    requires !s.connected
    ensures AnnounceSpec(inputs, s, s, infoHash, true)
  {
  }

  lemma AnnounceDecided(inputs: nat -> Input, s: Session, t: Session, infoHash: CString, ok: bool)
    requires 0 <= s.attempts <= MAX_ATTEMPTS && s.connected
    requires var input := inputs(s.used);
             && (input.reply.Timeout? ==> s.attempts == MAX_ATTEMPTS)
             && (ok <==> input.reply.Timeout? || Answers(input, 1))
             && t == s.(attempts := if input.reply.Timeout? then s.attempts else 0,
                        used := s.used + 1,
                        transactionId := TransactionId(input),
                        history := s.history + AnnounceExchange(input, s.connectionId, infoHash))
    ensures AnnounceSpec(inputs, s, t, infoHash, ok)
  {
    hide AnnounceTrace, AnnounceExchange;
    AnnounceTraceFront(inputs, s.used, 0, s.connectionId, infoHash);
    NoTrace(inputs, s.used + 1);
    var trace := AnnounceExchange(inputs(s.used), s.connectionId, infoHash);
    assert trace + [] == trace;
  }

  // ---------- Whole runs ----------

  /** The connection id of the latest accepted connect reply: one with action 0 and the
      transaction id of the request just before it. */
  function Latest(history: seq<Event>): Option<int> {
    if |history| < 2 then None
    else match (history[|history| - 2], history[|history| - 1])
      case (ConnectSent(sent), Received(Answer(action, transactionId, id))) =>
        if action == 0 && transactionId == sent then Some(id)
        else Latest(history[..|history| - 1])
      case _ => Latest(history[..|history| - 1])
  }

  ghost predicate AnnouncesCarryLatest(history: seq<Event>) {
    forall i | 0 <= i < |history| && history[i].AnnounceSent? ::
      Latest(history[..i]) == Some(history[i].connectionId)
  }

  ghost predicate SessionInv(s: Session) {
    && 0 <= s.attempts <= MAX_ATTEMPTS
    && Latest(s.history) == (if s.connected then Some(s.connectionId) else None)
    && AnnouncesCarryLatest(s.history)
  }

  lemma LatestAfterConnect(h: seq<Event>, input: Input)
    ensures Latest(h + ConnectExchange(input)) ==
            if Accepts(input) then Some(input.reply.connectionId) else Latest(h)
  {
    if input.socketOk {
      var sent := ConnectSent(TransactionId(input));
      assert h + ConnectExchange(input) == h + [sent] + [Received(input.reply)];
      assert (h + [sent] + [Received(input.reply)])[..|h| + 1] == h + [sent];
      assert (h + [sent])[..|h|] == h;
      assert Latest(h + [sent]) == Latest(h);
    } else {
      assert h + ConnectExchange(input) == h;
    }
  }

  lemma LatestAfterAnnounce(h: seq<Event>, input: Input, id: int, infoHash: CString)
    ensures Latest(h + AnnounceExchange(input, id, infoHash)) == Latest(h)
  {
    var sent := AnnounceSent(id, TransactionId(input), infoHash);
    assert h + AnnounceExchange(input, id, infoHash) == h + [sent] + [Received(input.reply)];
    assert (h + [sent] + [Received(input.reply)])[..|h| + 1] == h + [sent];
    assert (h + [sent])[..|h|] == h;
    assert Latest(h + [sent]) == Latest(h);
  }

  lemma CarryConcat(h: seq<Event>, more: seq<Event>)
    requires AnnouncesCarryLatest(h)
    requires forall i | 0 <= i < |more| && more[i].AnnounceSent? ::
               i == 0 && Latest(h) == Some(more[i].connectionId)
    ensures AnnouncesCarryLatest(h + more)
  {
    hide Latest;
    var all := h + more;
    forall i | 0 <= i < |all| && all[i].AnnounceSent?
      ensures Latest(all[..i]) == Some(all[i].connectionId)
    {
      if i < |h| {
        assert all[..i] == h[..i];
      } else {
        assert all[i] == more[i - |h|];
        assert all[..|h|] == h;
      }
    }
  }

  lemma {:induction false} ConnectTraceKeeps(h: seq<Event>, inputs: nat -> Input, from: nat, n: nat)
    requires AnnouncesCarryLatest(h)
    requires forall k | from <= k < from + n - 1 :: TimesOut(inputs(k))
    ensures AnnouncesCarryLatest(h + ConnectTrace(inputs, from, n))
    ensures Latest(h + ConnectTrace(inputs, from, n)) ==
            if n > 0 && Accepts(inputs(from + n - 1)) then Some(inputs(from + n - 1).reply.connectionId)
            else Latest(h)
  {
    hide Latest, AnnouncesCarryLatest;
    if n == 0 {
      assert h + ConnectTrace(inputs, from, n) == h;
    } else {
      var last := inputs(from + n - 1);
      var before := h + ConnectTrace(inputs, from, n - 1);
      ConnectTraceKeeps(h, inputs, from, n - 1);
      assert before + ConnectExchange(last) == h + ConnectTrace(inputs, from, n);
      LatestAfterConnect(before, last);
      CarryConcat(before, ConnectExchange(last));
    }
  }

  lemma {:induction false} AnnounceTraceKeeps(h: seq<Event>, inputs: nat -> Input, from: nat, n: nat,
                                              id: int, infoHash: CString)
    requires AnnouncesCarryLatest(h) && Latest(h) == Some(id)
    ensures AnnouncesCarryLatest(h + AnnounceTrace(inputs, from, n, id, infoHash))
    ensures Latest(h + AnnounceTrace(inputs, from, n, id, infoHash)) == Some(id)
  {
    hide Latest, AnnouncesCarryLatest;
    if n == 0 {
      assert h + AnnounceTrace(inputs, from, n, id, infoHash) == h;
    } else {
      var last := inputs(from + n - 1);
      var before := h + AnnounceTrace(inputs, from, n - 1, id, infoHash);
      AnnounceTraceKeeps(h, inputs, from, n - 1, id, infoHash);
      assert before + AnnounceExchange(last, id, infoHash) == h + AnnounceTrace(inputs, from, n, id, infoHash);
      LatestAfterAnnounce(before, last, id, infoHash);
      CarryConcat(before, AnnounceExchange(last, id, infoHash));
    }
  }

  datatype Call = Connecting | Announcing(infoHash: CString)

  ghost predicate CallSpec(inputs: nat -> Input, s: Session, t: Session, call: Call, ok: bool) {
    match call
    case Connecting => ConnectSpec(inputs, s, t, ok)
    case Announcing(infoHash) => AnnounceSpec(inputs, s, t, infoHash, ok)
  }

  lemma CallKeeps(inputs: nat -> Input, s: Session, t: Session, call: Call, ok: bool)
    requires SessionInv(s) && CallSpec(inputs, s, t, call, ok)
    ensures SessionInv(t)
    ensures s.used <= t.used <= s.used + 6 - s.attempts
    ensures s.history <= t.history
  {
    hide Latest, AnnouncesCarryLatest, ConnectTrace, AnnounceTrace, LastSent;
    if call.Connecting? {
      ConnectTraceKeeps(s.history, inputs, s.used, t.used - s.used);
    } else if s.connected {
      AnnounceTraceKeeps(s.history, inputs, s.used, t.used - s.used, s.connectionId, call.infoHash);
    }
  }

  /** The states between the calls of a run that starts with a new tracker. */
  ghost predicate IsRun(inputs: nat -> Input, calls: seq<Call>, oks: seq<bool>, states: seq<Session>) {
    && |states| == |calls| + 1 && |oks| == |calls|
    && states[0] == Session(false, 0, 0, 0, 0, [])
    && forall i | 0 <= i < |calls| :: CallSpec(inputs, states[i], states[i + 1], calls[i], oks[i])
  }

  /** Over any calls and any replies: the attempts stay in bounds, the tracker counts as
      connected exactly when a connect was accepted, every announce carries the connection id
      of the latest accepted connect, and no call sends more than its share. */
  lemma {:induction false} RunIsSafe(inputs: nat -> Input, calls: seq<Call>, oks: seq<bool>,
                                     states: seq<Session>, i: nat)
    requires IsRun(inputs, calls, oks, states) && i < |states|
    ensures SessionInv(states[i])
    ensures states[i].used <= 6 * i && 0 <= states[i].attempts <= 5
  {
    hide CallSpec, Latest, AnnouncesCarryLatest;
    if i == 0 {
      assert SessionInv(states[0]) by { NewSession(); }
    } else {
      RunIsSafe(inputs, calls, oks, states, i - 1);
      var j := i - 1;
      assert CallSpec(inputs, states[j], states[j + 1], calls[j], oks[j]);
      CallKeeps(inputs, states[j], states[i], calls[j], oks[j]);
    }
  }

  lemma NewSession()
    ensures SessionInv(Session(false, 0, 0, 0, 0, []))
  {
  }

  // ---------- The hash that is announced ----------

  /** Every announce in the history carries `h`. */
  ghost predicate CarriesHash(history: seq<Event>, h: CString) {
    forall i | 0 <= i < |history| && history[i].AnnounceSent? :: history[i].infoHash == h
  }

  lemma {:induction false} ConnectTraceSilent(inputs: nat -> Input, from: nat, n: nat)
    ensures forall i | 0 <= i < |ConnectTrace(inputs, from, n)| ::
              !ConnectTrace(inputs, from, n)[i].AnnounceSent?
  {
    if n > 0 {
      ConnectTraceSilent(inputs, from, n - 1);
    }
  }

  lemma {:induction false} AnnounceTraceCarries(inputs: nat -> Input, from: nat, n: nat,
                                                id: int, infoHash: CString)
    ensures CarriesHash(AnnounceTrace(inputs, from, n, id, infoHash), infoHash)
  {
    if n > 0 {
      AnnounceTraceCarries(inputs, from, n - 1, id, infoHash);
    }
  }

  lemma CallCarries(inputs: nat -> Input, s: Session, t: Session, call: Call, ok: bool, h: CString)
    requires CallSpec(inputs, s, t, call, ok) && CarriesHash(s.history, h)
    requires call.Announcing? ==> call.infoHash == h
    ensures CarriesHash(t.history, h)
  {
    hide ConnectTrace, AnnounceTrace, LastSent;
    if call.Connecting? {
      ConnectTraceSilent(inputs, s.used, t.used - s.used);
    } else if s.connected {
      AnnounceTraceCarries(inputs, s.used, t.used - s.used, s.connectionId, h);
    }
  }

  /** The two specifications leave nothing open: the state and what the network will answer
      decide the state after a call and its result. */
  lemma CallDetermined(inputs: nat -> Input, s: Session, call: Call,
                       t: Session, ok: bool, u: Session, also: bool)
    requires SessionInv(s)
    requires CallSpec(inputs, s, t, call, ok) && CallSpec(inputs, s, u, call, also)
    ensures t == u && ok == also
  {
    hide Latest, AnnouncesCarryLatest, ConnectTrace, AnnounceTrace, LastSent;
  }

  /** A connect whose first try is answered is decided by it: one request with the draw's id is
      sent, and it succeeds exactly on action 0 with that id. */
  lemma FirstAnswerConnects(inputs: nat -> Input, s: Session, t: Session, ok: bool)
    requires SessionInv(s) && ConnectSpec(inputs, s, t, ok)
    requires inputs(s.used).socketOk && inputs(s.used).reply.Answer?
    ensures var input := inputs(s.used);
            var id := input.draw % 1000000;
            && t.used == s.used + 1 && t.attempts == 0 && t.transactionId == id
            && (ok <==> input.reply.action == 0 && input.reply.transactionId == id)
            && (ok ==> t.connected && t.connectionId == input.reply.connectionId)
            && (!ok ==> t.connected == s.connected && t.connectionId == s.connectionId)
            && t.history == s.history + [ConnectSent(id), Received(input.reply)]
  {
    hide Latest, AnnouncesCarryLatest;
    OneExchange(inputs, s.used, s.transactionId);
  }

  lemma OneExchange(inputs: nat -> Input, from: nat, id: int)
    ensures ConnectTrace(inputs, from, 1) == ConnectExchange(inputs(from))
    ensures LastSent(id, ConnectTrace(inputs, from, 1)) ==
            if inputs(from).socketOk then TransactionId(inputs(from)) else id
    ensures forall c, h :: AnnounceTrace(inputs, from, 1, c, h) == AnnounceExchange(inputs(from), c, h)
  {
    assert ConnectTrace(inputs, from, 0) == [];
    LastSentExchange(id, inputs(from));
    forall c, h
      ensures AnnounceTrace(inputs, from, 1, c, h) == AnnounceExchange(inputs(from), c, h)
    {
      assert AnnounceTrace(inputs, from, 0, c, h) == [];
    }
  }

  /** A failing socket ends a connect without a request. */
  lemma NoSocketNoConnect(inputs: nat -> Input, s: Session, t: Session, ok: bool)
    requires SessionInv(s) && ConnectSpec(inputs, s, t, ok) && !inputs(s.used).socketOk
    ensures !ok && t == s.(attempts := 0, used := s.used + 1)
  {
    hide Latest, AnnouncesCarryLatest;
    OneExchange(inputs, s.used, s.transactionId);
    assert s.history + [] == s.history;
  }

  /** An announce of a connected tracker whose first request is answered is decided by it: the
      request carries the connection id, the draw's id and the hash, and it succeeds exactly on
      action 1 with the draw's id. */
  lemma FirstAnswerAnnounces(inputs: nat -> Input, s: Session, t: Session, infoHash: CString, ok: bool)
    requires SessionInv(s) && s.connected && AnnounceSpec(inputs, s, t, infoHash, ok)
    requires inputs(s.used).reply.Answer?
    ensures var input := inputs(s.used);
            var id := input.draw % 1000000;
            && t == Session(true, 0, s.connectionId, id, s.used + 1,
                            s.history + [AnnounceSent(s.connectionId, id, infoHash), Received(input.reply)])
            && (ok <==> input.reply.action == 1 && input.reply.transactionId == id)
  {
    hide Latest, AnnouncesCarryLatest;
    OneExchange(inputs, s.used, s.transactionId);
  }

  /** An announce that sends something succeeds exactly when it was answered if and only if the
      first reply is no timeout or the last one fits: a retry's failure is lost. */
  lemma AnnounceTellsTruthIff(inputs: nat -> Input, s: Session, t: Session, infoHash: CString, ok: bool)
    requires SessionInv(s) && s.connected && AnnounceSpec(inputs, s, t, infoHash, ok)
    ensures (ok <==> Answers(inputs(t.used - 1), 1)) <==>
            (!inputs(s.used).reply.Timeout? || Answers(inputs(t.used - 1), 1))
  {
    hide AnnounceTrace, Latest, AnnouncesCarryLatest;
  }

  /** A timeout and then an answer of the wrong kind, as a tracker gives to refuse a request. */
  function RefusedRetry(n: nat): Input {
    if n == 0 then Input(true, 0, Timeout) else Input(true, 0, Answer(3, 0, 0))
  }

  /** Such an announce reports success. */
  lemma RefusedAnnounceSucceeds()
    ensures var s := Session(true, 0, 7, 0, 0, [ConnectSent(0), Received(Answer(0, 0, 7))]);
            && SessionInv(s)
            && (exists t: Session :: t.used == 2 && AnnounceSpec(RefusedRetry, s, t, [], true))
            && !Answers(RefusedRetry(0), 1) && !Answers(RefusedRetry(1), 1)
  {
    hide AnnounceTrace;
    var h := [ConnectSent(0), Received(Answer(0, 0, 7))];
    var s := Session(true, 0, 7, 0, 0, h);
    assert h[..1] == [ConnectSent(0)];
    var t := s.(used := 2, history := h + AnnounceTrace(RefusedRetry, 0, 2, 7, []));
    assert AnnounceSpec(RefusedRetry, s, t, [], true);
  }

  /** Once an announce has met only silence, every further announce that meets silence sends
      one request and leaves the attempts used up; the first that does not starts them anew. */
  lemma {:induction false} SilenceUsesAttempts(inputs: nat -> Input, calls: seq<Call>, oks: seq<bool>,
                                               states: seq<Session>, i: nat, j: nat)
    requires IsRun(inputs, calls, oks, states) && i <= j < |states|
    requires states[i].connected && states[i].attempts == MAX_ATTEMPTS
    requires forall k | i <= k < j :: calls[k].Announcing?
    requires forall k | states[i].used <= k < states[i].used + (j - i) :: inputs(k).reply.Timeout?
    ensures states[j].used == states[i].used + (j - i)
    ensures states[j].connected && states[j].attempts == MAX_ATTEMPTS && (i < j ==> oks[j - 1])
    ensures forall u, call, ok | CallSpec(inputs, states[j], u, call, ok) ::
              && u.used == states[j].used + 1
              && (inputs(states[j].used).reply.Answer? ==> u.attempts == 0)
    decreases j - i
  {
    hide AnnounceTrace, ConnectTrace, LastSent;
    if i < j {
      SilenceUsesAttempts(inputs, calls, oks, states, i, j - 1);
      assert CallSpec(inputs, states[j - 1], states[j - 1 + 1], calls[j - 1], oks[j - 1]);
    }
  }

  // ---------- The class ----------

  /** What an announce needs of the hash: three pieces, none too long. */
  predicate HashOk(hash: CString) {
    PiecesFit(hash) && |Pieces(hash)| >= 3
  }

  /** The third piece of a hash such as "urn:btih:...". */
  function InfoHash(hash: CString): CString {
    if |Pieces(hash)| >= 3 then (PiecesHaveNoColon(hash); Pieces(hash)[2]) else []
  }

  /** The text "urn:btih:" */
  const URN: seq<Byte> := [0x75, 0x72, 0x6e, 0x3a, 0x62, 0x74, 0x69, 0x68, 0x3a]

  /** What is announced of "urn:btih:h" is h. */
  lemma InfoHashOfUrn(h: CString)
    requires 0x3a !in h
    ensures NulFree(URN + h)
    ensures InfoHash([0x75, 0x72, 0x6e, 0x3a, 0x62, 0x74, 0x69, 0x68, 0x3a] + h) == h
    ensures |h| <= 255 ==> HashOk(URN + h)
  {
    hide Pieces;
    var urn, btih := [0x75, 0x72, 0x6e], [0x62, 0x74, 0x69, 0x68];
    var ps: seq<seq<Byte>> := [urn, btih, h];
    assert ps[..2] == [urn, btih] && ps[..2][..1] == [urn];
    assert JoinedBy(ps[..2], [COLON]) == urn + [COLON] + btih;
    assert JoinedBy(ps, [COLON]) == URN + h;
    PiecesOfJoin(ps);
  }

  class Tracker {
    var url: CString
    var port: CString
    var connected: bool
    var attempts: int
    var connectionId: int
    var lastTransactionId: int

    // The tracker's socket and rand(), and how much of what they will give has been used.
    const inputs: nat -> Input
    var used: nat
    ghost var History: seq<Event>

    ghost function State(): Session
      reads this
    {
      Session(connected, attempts, connectionId, lastTransactionId, used, History)
    }

    ghost predicate Valid()
      reads this
    {
      0 <= attempts <= MAX_ATTEMPTS
    }

    constructor (address: CString, inputs: nat -> Input)
      requires AddressOk(address)
      ensures Valid() && this.inputs == inputs
      ensures url == Host(address) && port == Port(address)
      ensures State() == Session(false, 0, 0, 0, 0, [])
    {
      hide UrlDecoded, CStr, Pieces;
      var addr, n := UrlDecode(address);
      var urlPort := Split(CStr(addr[..]), COLON);
      var host := urlPort.Get(1);
      var portPiece := urlPort.Get(2);
      PartsNulFree(address);
      this.url := host.value[2..];
      this.port := portPiece.value;
      connected := false;
      attempts := 0;
      connectionId := 0;
      lastTransactionId := 0;
      this.inputs := inputs;
      used := 0;
      History := [];
    }

    method GenerateTransId()
      modifies this`lastTransactionId
      ensures lastTransactionId == TransactionId(inputs(used))
    {
      lastTransactionId := inputs(used).draw % 1000000;
    }

    method Connect() returns (ok: bool)
      requires Valid()
      modifies this
      ensures Valid() && url == old(url) && port == old(port)
      ensures ConnectSpec(inputs, old(State()), State(), ok)
      decreases MAX_ATTEMPTS - attempts
    {
      hide ConnectSpec, ConnectTrace, LastSent;
      ghost var s := State();
      var input := inputs(used);
      if !input.socketOk {
        used := used + 1;
        attempts := 0;
        assert s.history + ConnectExchange(input) == s.history;
        ConnectDecided(inputs, s, State(), false);
        return false;
      }
      GenerateTransId();
      used := used + 1;
      History := History + [ConnectSent(lastTransactionId), Received(input.reply)];
      match input.reply
      case Answer(action, transactionId, id) =>
        ok := action == 0 && lastTransactionId == transactionId;
        if ok {
          connected := true;
          connectionId := id;
        }
        attempts := 0;
        ConnectDecided(inputs, s, State(), ok);
      case Timeout =>
        if attempts < MAX_ATTEMPTS {
          attempts := attempts + 1;
          ghost var u := State();
          ok := Connect();
          ConnectRetried(inputs, s, u, State(), ok);
        } else {
          attempts := 0;
          ok := false;
          ConnectDecided(inputs, s, State(), ok);
        }
    }

    method Announce(hash: CString) returns (ok: bool)
      requires Valid()
      requires connected ==> HashOk(hash)
      modifies this
      ensures Valid() && url == old(url) && port == old(port)
      ensures AnnounceSpec(inputs, old(State()), State(), InfoHash(hash), ok)
      decreases MAX_ATTEMPTS - attempts
    {
      hide AnnounceSpec, AnnounceTrace, Pieces, PiecesFit, Linkedlist<seq<Byte>>.Valid;
      ghost var s := State();
      if !connected {
        NotConnected(inputs, s, InfoHash(hash));
        return true;
      }
      GenerateTransId();
      var pieces := Split(hash, COLON);
      var infoHash := pieces.Get(2);
      PiecesHaveNoColon(hash);
      var input := inputs(used);
      used := used + 1;
      History := History + [AnnounceSent(connectionId, lastTransactionId, infoHash.value),
                            Received(input.reply)];
      match input.reply
      case Answer(action, transactionId, _) =>
        attempts := 0;
        ok := action == 1 && lastTransactionId == transactionId;
        AnnounceDecided(inputs, s, State(), InfoHash(hash), ok);
      case Timeout =>
        ok := true;
        if attempts < MAX_ATTEMPTS {
          attempts := attempts + 1;
          ghost var u := State();
          var retried := Announce(hash);
          AnnounceRetried(inputs, s, u, State(), InfoHash(hash), retried);
        } else {
          AnnounceDecided(inputs, s, State(), InfoHash(hash), ok);
        }
    }
  }
}
